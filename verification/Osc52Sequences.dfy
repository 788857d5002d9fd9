/** Every clipboard sequence the decoder accepts, byte by byte: any selection, both terminators, padded or not. */
module Osc52Sequences {
  import opened Bytes
  import opened Osc52
  import Base64

  /** Bytes between `ESC ] 52 ;` and the terminator: no BEL, and after an ESC another byte that does not end it. */
  predicate Carried(p: seq<Byte>) {
    p == [] ||
    (if p[0] == 0x1b then |p| >= 2 && p[1] != '\\' as Byte && Carried(p[2..])
     else p[0] != 0x07 && Carried(p[1..]))
  }

  /** BEL, or `ESC \`. */
  predicate Terminator(end: seq<Byte>) {
    end == [0x07] || end == [0x1b, '\\' as Byte]
  }

  function Sequence(p: seq<Byte>, end: seq<Byte>): seq<Byte> {
    [0x1b, ']' as Byte, '5' as Byte, '2' as Byte, ';' as Byte] + (p + end)
  }

  lemma TwoSteps(d: Decoder, a: Byte, b: Byte)
    ensures After(d, [a, b]) == Step(Step(d, a).0, b).0
    ensures Texts(d, [a, b]) == Step(d, a).1 + Step(Step(d, a).0, b).1
  {
    assert [a, b] == [a] + [b];
    FeedConcat(d, [a], [b]);
    FeedOne(d, a);
    FeedOne(Step(d, a).0, b);
  }

  lemma {:induction false} FillCarried(payload: seq<Byte>, p: seq<Byte>)
    requires Carried(p) && |payload| + |p| <= MAX_PAYLOAD
    ensures After(Decoder(5, payload), p) == Decoder(5, payload + p) && Texts(Decoder(5, payload), p) == []
    decreases |p|
  {
    var d := Decoder(5, payload);
    if p == [] {
      assert payload + p == payload;
    } else if p[0] == ESC {
      var x, rest := [p[0], p[1]], p[2..];
      assert p == x + rest;
      TwoSteps(d, p[0], p[1]);
      FillCarried(payload + x, rest);
      FeedConcat(d, x, rest);
      assert payload + x + rest == payload + p;
    } else {
      var x, rest := [p[0]], p[1..];
      assert p == x + rest;
      FeedOne(d, p[0]);
      FillCarried(payload + x, rest);
      FeedConcat(d, x, rest);
      assert payload + x + rest == payload + p;
    }
  }

  lemma TerminatorEnds(payload: seq<Byte>, end: seq<Byte>)
    requires Terminator(end)
    ensures After(Decoder(5, payload), end) == Decoder(0, [])
    ensures Texts(Decoder(5, payload), end) == TextOf(payload)
  {
    if end == [0x07] { FeedOne(Decoder(5, payload), BEL); } else { TwoSteps(Decoder(5, payload), ESC, BACKSLASH); }
  }

  lemma TerminatorWhileIdle(end: seq<Byte>)
    requires Terminator(end)
    ensures After(Decoder(0, []), end) == Decoder(0, []) && Texts(Decoder(0, []), end) == []
  {
    if end == [0x07] { FeedOne(Decoder(0, []), BEL); } else { TwoSteps(Decoder(0, []), ESC, BACKSLASH); }
  }

  /** Whatever was read before outside a payload, a sequence that fits the cap yields what its payload says. */
  lemma SequenceTexts(d: Decoder, p: seq<Byte>, end: seq<Byte>)
    requires d.state <= 4 && Carried(p) && |p| <= 1048576 && Terminator(end)
    ensures Texts(d, Sequence(p, end)) == TextOf(p)
    ensures After(d, Sequence(p, end)) == Decoder(0, [])
  {
    Introduction(d);
    assert Sequence(p, end) == INTRO + (p + end);
    FeedConcat(d, INTRO, p + end);
    FillCarried([], p);
    assert [] + p == p;
    FeedConcat(Decoder(5, []), p, end);
    TerminatorEnds(p, end);
    assert [] + TextOf(p) == TextOf(p);
  }

  lemma {:induction false} PlainIsCarried(p: seq<Byte>)
    requires Printable(p)
    ensures Carried(p)
  {
    if p != [] {
      assert forall i | 0 <= i < |p[1..]| :: p[1..][i] == p[i + 1];
      PlainIsCarried(p[1..]);
    }
  }

  /** The cap for bytes without ESC: one more than fits, and the sequence yields nothing. */
  lemma PlainSequenceTexts(d: Decoder, p: seq<Byte>, end: seq<Byte>)
    requires d.state <= 4 && Printable(p) && Terminator(end)
    ensures Texts(d, Sequence(p, end)) == if |p| <= 1048576 then TextOf(p) else []
    ensures After(d, Sequence(p, end)) == Decoder(0, [])
  {
    if |p| <= 1048576 {
      PlainIsCarried(p);
      SequenceTexts(d, p, end);
    } else {
      Introduction(d);
      assert Sequence(p, end) == INTRO + (p + end);
      FeedConcat(d, INTRO, p + end);
      Fill([], p);
      FeedConcat(Decoder(5, []), p, end);
      TerminatorWhileIdle(end);
    }
  }

  // ---- What a payload says ----

  lemma {:induction false} SeparatorAt(selection: seq<Byte>, data: seq<Byte>)
    requires ';' as Byte !in selection
    ensures AfterSeparator(selection + [';' as Byte] + data) == Some(data)
  {
    var p := selection + [';' as Byte] + data;
    if selection == [] {
      assert p[1..] == data;
    } else {
      SeparatorAt(selection[1..], data);
      assert p[1..] == selection[1..] + [';' as Byte] + data;
    }
  }

  lemma {:induction false} NoSeparator(p: seq<Byte>)
    requires ';' as Byte !in p
    ensures AfterSeparator(p) == None
  {
    if p != [] { NoSeparator(p[1..]); }
  }

  /** What one of the two decoders takes, line breaks aside. */
  predicate Decodable(data: seq<Byte>) {
    var s := Base64.SkipBreaks(data);
    || (|s| % 4 == 0 && Base64.AllLetters(s[..|s| - Base64.Padding(s)]))
    || (|s| % 4 != 1 && Base64.AllLetters(s))
  }

  /** Without a semicolon there is no text, nor behind one for nothing, for the query `?`, or for what neither decoder takes. */
  lemma SaysNothing(selection: seq<Byte>, data: seq<Byte>)
    requires ';' as Byte !in selection
    ensures TextOf(selection) == []
    ensures TextOf(selection + [';' as Byte] + data) == [] <==>
            data == [] || data == ['?' as Byte] || !Decodable(data)
  {
    NoSeparator(selection);
    SeparatorAt(selection, data);
    Base64.QuantaIff(Base64.SkipBreaks(data));
  }

  lemma SaysText(selection: seq<Byte>, text: seq<Byte>)
    requires ';' as Byte !in selection && text != []
    ensures TextOf(selection + [';' as Byte] + Base64.Encode(text)) == [text]
    ensures TextOf(selection + [';' as Byte] + Base64.EncodeRaw(text)) == [text]
  {
    SeparatorAt(selection, Base64.Encode(text));
    SeparatorAt(selection, Base64.EncodeRaw(text));
    Base64.RoundTrip(text);
    Base64.RawRoundTrip(text);
    Base64.EncodedLength(text);
    Base64.RawIsUnpadded(text);
  }

  predicate Encodes(encoded: seq<Byte>, text: seq<Byte>) {
    encoded == Base64.Encode(text) || encoded == Base64.EncodeRaw(text)
  }

  lemma EncodesPlainly(selection: seq<Byte>, encoded: seq<Byte>, text: seq<Byte>)
    requires Printable(selection) && Encodes(encoded, text)
    ensures Printable(selection + [';' as Byte] + encoded)
  {
    Base64.EncodedIsPlain(text);
    Base64.RawIsUnpadded(text);
    var p, n := selection + [';' as Byte] + encoded, |selection|;
    forall i | 0 <= i < |p|
      ensures p[i] != ESC && p[i] != BEL
    {
      if i < n { assert p[i] == selection[i]; }
      if i > n { assert p[i] == encoded[i - n - 1]; assert Base64.Plain(p[i]); }
    }
  }

  /**
   From any state outside a payload: a sequence for any selection, padded or not, ended either way,
   decodes to its text exactly when that is not empty and the payload fits; otherwise to nothing.
   */
  lemma SequenceDecodes(d: Decoder, selection: seq<Byte>, encoded: seq<Byte>, text: seq<Byte>, end: seq<Byte>)
    requires d.state <= 4 && Terminator(end) && Encodes(encoded, text)
    requires Printable(selection) && ';' as Byte !in selection
    ensures var s := Sequence(selection + [';' as Byte] + encoded, end);
            Texts(d, s) == (if text != [] && |selection| + 1 + |encoded| <= 1048576 then [text] else []) &&
            After(d, s) == Decoder(0, [])
  {
    EncodesPlainly(selection, encoded, text);
    PlainSequenceTexts(d, selection + [';' as Byte] + encoded, end);
    if text == [] {
      SaysNothing(selection, []);
    } else {
      SaysText(selection, text);
    }
  }

  /** A request for the clipboard's contents yields nothing. */
  lemma QueryYieldsNothing(d: Decoder, selection: seq<Byte>, end: seq<Byte>)
    requires d.state <= 4 && Terminator(end) && Printable(selection) && ';' as Byte !in selection
    ensures Texts(d, Sequence(selection + [';' as Byte, '?' as Byte], end)) == []
  {
    var p := selection + [';' as Byte, '?' as Byte];
    assert p == selection + [';' as Byte] + ['?' as Byte];
    PlainSequenceTexts(d, p, end);
    SaysNothing(selection, ['?' as Byte]);
  }

  // ---- Nothing else ----

  /** The five bytes that open a clipboard sequence stand somewhere in s. */
  ghost predicate Introduced(s: seq<Byte>) {
    exists i :: 0 <= i && IntroAt(s, i)
  }

  predicate IntroAt(s: seq<Byte>, i: nat) {
    i + 5 <= |s| && s[i] == 0x1b && s[i + 1] == ']' as Byte && s[i + 2] == '5' as Byte &&
    s[i + 3] == '2' as Byte && s[i + 4] == ';' as Byte
  }

  /** The decoder is as far into the opening as the bytes read last are. */
  ghost predicate Underway(d: Decoder, s: seq<Byte>) {
    var n := |s|;
    && d.state <= 4 && d.state <= n
    && (d.state == 1 ==> s[n - 1] == 0x1b)
    && (d.state == 2 ==> s[n - 2] == 0x1b && s[n - 1] == ']' as Byte)
    && (d.state == 3 ==> s[n - 3] == 0x1b && s[n - 2] == ']' as Byte && s[n - 1] == '5' as Byte)
    && (d.state == 4 ==>
          s[n - 4] == 0x1b && s[n - 3] == ']' as Byte && s[n - 2] == '5' as Byte && s[n - 1] == '2' as Byte)
  }

  lemma StepUnderway(d: Decoder, s: seq<Byte>, b: Byte)
    requires Underway(d, s) && !Introduced(s + [b])
    ensures Underway(Step(d, b).0, s + [b]) && Step(d, b).1 == []
  {
    if |s| >= 4 { assert !IntroAt(s + [b], |s| - 4); }
  }

  /** A stream without these five bytes in a row yields no text, however much like them it looks. */
  lemma {:induction false} NothingUnlessIntroduced(s: seq<Byte>)
    requires !Introduced(s)
    ensures Texts(Decoder(0, []), s) == [] && Underway(After(Decoder(0, []), s), s)
  {
    if s != [] {
      var front, b := s[..|s| - 1], s[|s| - 1];
      assert s == front + [b];
      assert forall i: nat | IntroAt(front, i) :: IntroAt(s, i);
      NothingUnlessIntroduced(front);
      FeedConcat(Decoder(0, []), front, [b]);
      FeedOne(After(Decoder(0, []), front), b);
      StepUnderway(After(Decoder(0, []), front), front, b);
    }
  }

  // ---- Through tmux ----

  /** What tmux hands to the terminal: each doubled ESC once. */
  function Undoubled(s: seq<Byte>): seq<Byte> {
    if s == [] then []
    else if s[0] == 0x1b && |s| > 1 && s[1] == 0x1b then [s[0]] + Undoubled(s[2..])
    else [s[0]] + Undoubled(s[1..])
  }

  lemma {:induction false} DoublingIsUndone(s: seq<Byte>)
    ensures Undoubled(DoubleEscapes(s)) == s
  {
    if s != [] {
      var rest := DoubleEscapes(s[1..]);
      DoublingIsUndone(s[1..]);
      if s[0] == ESC {
        assert DoubleEscapes(s) == [ESC, ESC] + rest && ([ESC, ESC] + rest)[2..] == rest;
      } else {
        assert DoubleEscapes(s) == [s[0]] + rest && ([s[0]] + rest)[1..] == rest;
      }
    }
  }

  /** A plain sequence, then one for tmux: `ESC P tmux ;`, a text that undoubles to the same sequence, `ESC \\`. */
  lemma TmuxPassesOn(text: seq<Byte>)
    ensures exists doubled :: Undoubled(doubled) == BuildOSC52(text) &&
              ClipboardOutputSequence(text) == BuildOSC52(text)
                + [0x1b, 'P' as Byte, 't' as Byte, 'm' as Byte, 'u' as Byte, 'x' as Byte, ';' as Byte]
                + doubled + [0x1b, '\\' as Byte]
  {
    DoublingIsUndone(BuildOSC52(text));
  }
}
