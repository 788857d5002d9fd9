/** When a backspace keeps the ANSI and the plain copy of a line in agreement, and when it parts them. */
module CaptureBackspace {
  import opened Bytes
  import opened Utf8
  import opened Ansi
  import opened Capture
  import opened CaptureTheorems

  /** The last byte of the text finishes an SGR sequence. */
  predicate EndsInSGR(ansi: seq<Byte>) {
    ansi != [] &&
    var c := Unfinished([], ansi[..|ansi| - 1]);
    c != [] && IsSGR(c + [ansi[|ansi| - 1]])
  }

  /** The ANSI text that the next byte acts on: a held carriage return leaves only the colours set since. */
  function Effective(m: Main): seq<Byte> {
    if m.cr then m.crAnsi else m.ansi
  }

  // ---- The reader seen from afar ----

  /** What kind of sequence is unfinished. */
  datatype Kind = Idle | AfterEsc | InCsi | InOsc | InOscEsc

  function KindOf(c: seq<Byte>): Kind {
    if c == [] then Idle
    else if |c| == 1 then AfterEsc
    else if c[1] == LBRACKET then InCsi
    else if c[|c| - 1] == ESC then InOscEsc
    else InOsc
  }

  function Turn(k: Kind, b: Byte): Kind {
    match k
    case Idle => if b == ESC then AfterEsc else Idle
    case AfterEsc => if b == LBRACKET then InCsi else if b == RBRACKET then InOsc else Idle
    case InCsi => if 0x40 <= b <= 0x7e then Idle else InCsi
    case InOsc => if b == BEL then Idle else if b == ESC then InOscEsc else InOsc
    case InOscEsc => if b == BEL || b == BACKSLASH then Idle else if b == ESC then InOscEsc else InOsc
  }

  function KindAfter(k: Kind, p: seq<Byte>): Kind
    decreases p
  {
    if p == [] then k else KindAfter(Turn(k, p[0]), p[1..])
  }

  lemma {:induction false} KindAfterConcat(k: Kind, p: seq<Byte>, q: seq<Byte>)
    ensures KindAfter(k, p + q) == KindAfter(KindAfter(k, p), q)
    decreases p
  {
    if p == [] {
      assert p + q == q;
    } else {
      assert (p + q)[1..] == p[1..] + q;
      KindAfterConcat(Turn(k, p[0]), p[1..], q);
    }
  }

  /** The unfinished sequence after one more byte. */
  function NextControl(c: seq<Byte>, b: Byte): seq<Byte> {
    if c != [] then if Complete(c + [b]) then [] else c + [b]
    else if b == ESC then [ESC] else []
  }

  lemma NextControlKind(c: seq<Byte>, b: Byte)
    requires Partial(c)
    ensures Partial(NextControl(c, b)) && KindOf(NextControl(c, b)) == Turn(KindOf(c), b)
  {
    EscapeIsPartial();
    if c != [] {
      PartialOrWhole(c, b);
      assert c[..|c|] == c && !Complete(c);
    }
  }

  lemma {:induction false} UnfinishedKind(c: seq<Byte>, p: seq<Byte>)
    requires Partial(c)
    ensures Partial(Unfinished(c, p)) && KindOf(Unfinished(c, p)) == KindAfter(KindOf(c), p)
    decreases p
  {
    if p != [] {
      NextControlKind(c, p[0]);
      UnfinishedKind(NextControl(c, p[0]), p[1..]);
      assert Unfinished(c, p) == Unfinished(NextControl(c, p[0]), p[1..]);
    }
  }

  /** Bytes beyond ASCII all act alike, however many they are. */
  lemma {:induction false} HighBytes(k: Kind, x: seq<Byte>)
    requires x != [] && AllHigh(x)
    ensures KindAfter(k, x) == match k
                               case Idle => Idle
                               case AfterEsc => Idle
                               case InCsi => InCsi
                               case InOsc => InOsc
                               case InOscEsc => InOsc
    decreases x
  {
    if |x| > 1 {
      HighBytes(Turn(k, x[0]), x[1..]);
    } else {
      assert x[1..] == [];
    }
  }

  lemma OneRuneRewritten(k: Kind, s: seq<Byte>)
    requires s != []
    ensures var n, e := FirstSize(s), EncodeRune(FirstRune(s));
            Rewritten(s) == e + Rewritten(s[n..]) && KindAfter(k, e) == KindAfter(k, s[..n])
  {
    var e, chunk := EncodeRune(FirstRune(s)), s[..FirstSize(s)];
    if s[0] >= 0x80 {
      HighBytes(k, e);
      HighBytes(k, chunk);
    } else {
      assert chunk == e;
    }
    FirstOff(FirstRune(s), Decode(s[FirstSize(s)..]));
  }

  lemma RewrittenNothing()
    ensures Rewritten([]) == []
  {
  }

  /** So replacing malformed bytes does not change where sequences end. */
  lemma {:induction false} RewritingKeepsKind(k: Kind, s: seq<Byte>)
    ensures KindAfter(k, Rewritten(s)) == KindAfter(k, s)
    decreases |s|
  {
    RewrittenNothing();
    hide *;
    if s != [] {
      var n := FirstSize(s);
      OneRuneRewritten(k, s);
      KindAfterConcat(k, EncodeRune(FirstRune(s)), Rewritten(s[n..]));
      KindAfterConcat(k, s[..n], s[n..]);
      assert s == s[..n] + s[n..];
      RewritingKeepsKind(KindAfter(k, s[..n]), s[n..]);
    }
  }

  // ---- After a colour ----

  /** A backspace takes the last byte of a colour sequence and leaves the rest of it unfinished. */
  lemma TrimmedColourIsUnfinished(ansi: seq<Byte>)
    requires EndsInSGR(ansi)
    ensures Unfinished([], TrimLastRune(ansi)) != []
  {
    var front, b := ansi[..|ansi| - 1], ansi[|ansi| - 1];
    assert b == 'm' as Byte && ansi == front + [b];
    DecodeSnocAscii(front, b);
    assert TrimLastRune(ansi) == Rewritten(front) by {
      assert Decode(ansi)[..|Decode(ansi)| - 1] == Decode(front);
    }
    UnfinishedKind([], front);
    UnfinishedKind([], Rewritten(front));
    RewritingKeepsKind(Idle, front);
  }

  /** Whatever the line holds, a backspace right after a colour parts the copies. */
  lemma BackspacePartsCopies(g: Grid, m: Main)
    requires EndsInSGR(Effective(m))
    ensures !CopiesAgree(Put(g, m, Text(BS)))
  {
    TrimmedColourIsUnfinished(Effective(m));
    assert Put(g, m, Text(BS)).ansi == TrimLastRune(Effective(m));
  }

  // ---- After text ----

  lemma {:induction false} TextPasses(x: seq<Byte>, rest: seq<Byte>)
    requires ESC !in x
    ensures DropSGR([], x + rest) == x + DropSGR([], rest) && Unfinished([], x + rest) == Unfinished([], rest)
  {
    if x == [] {
      assert x + rest == rest;
    } else {
      assert (x + rest)[1..] == x[1..] + rest;
      TextPasses(x[1..], rest);
      assert [x[0]] + x[1..] == x;
      Associative([x[0]], x[1..], DropSGR([], rest));
    }
  }

  lemma {:induction false} SequenceGrows(c: seq<Byte>, x: seq<Byte>, rest: seq<Byte>)
    requires Partial(c) && |c| >= 2 && AllHigh(x)
    ensures Partial(c + x)
    ensures DropSGR(c, x + rest) == DropSGR(c + x, rest) && Unfinished(c, x + rest) == Unfinished(c + x, rest)
    decreases x
  {
    if x == [] {
      assert c + x == c && x + rest == rest;
    } else {
      var d := c + [x[0]];
      assert c[..|c|] == c && !Complete(c);
      assert !Complete(d);
      PartialOrWhole(c, x[0]);
      assert (x + rest)[1..] == x[1..] + rest;
      SequenceGrows(d, x[1..], rest);
      assert d + x[1..] == c + x;
    }
  }

  /** The text kept so far, and what is still unfinished. */
  lemma {:induction false} DropSGRSplit(c: seq<Byte>, p: seq<Byte>, q: seq<Byte>) returns (d: seq<Byte>)
    ensures DropSGR(c, p) == d + Unfinished(c, p) && DropSGR(c, p + q) == d + DropSGR(Unfinished(c, p), q)
    ensures Unfinished(c, p + q) == Unfinished(Unfinished(c, p), q)
    decreases p
  {
    if p == [] {
      assert p + q == q;
      d := [];
    } else {
      assert (p + q)[1..] == p[1..] + q;
      var head := if c != [] && Complete(c + [p[0]]) then if IsSGR(c + [p[0]]) then [] else c + [p[0]]
                  else if c == [] && p[0] != ESC then [p[0]] else [];
      var next := NextControl(c, p[0]);
      var e := DropSGRSplit(next, p[1..], q);
      d := head + e;
      Associative(head, e, Unfinished(next, p[1..]));
      Associative(head, e, DropSGR(Unfinished(next, p[1..]), q));
      assert DropSGR(c, p) == head + DropSGR(next, p[1..]) && DropSGR(c, p + q) == head + DropSGR(next, p[1..] + q);
    }
  }

  /** Whole runes with the colours between them taken out are whole runes. */
  lemma {:induction false} DropSGRKeepsRunes(control: seq<Rune>, rs: seq<Rune>) returns (kept: seq<Rune>)
    requires Partial(Encode(control)) && Unfinished(Encode(control), Encode(rs)) == []
    requires ESC !in DropSGR(Encode(control), Encode(rs))
    ensures DropSGR(Encode(control), Encode(rs)) == Encode(kept)
    decreases rs
  {
    var c := Encode(control);
    if rs == [] {
      return [];
    }
    var r, later := rs[0], Encode(rs[1..]);
    var e := EncodeRune(r);
    EncodedRuneIsUniform(r);
    if c == [] && r != ESC {
      TextPasses(e, later);
      assert Encode([]) == [];
      kept := DropSGRKeepsRunes([], rs[1..]);
      FirstOff(r, kept);
      kept := [r] + kept;
    } else {
      EncodeSnoc(control, r);
      if c == [] {
        EscapeIsPartial();
        FirstOff(ESC, later);
        assert e == [ESC] && [] + e == e;
        kept := DropSGRKeepsRunes(control + [r], rs[1..]);
      } else if r >= 0x80 {
        SequenceGrows(c, e, later);
        kept := DropSGRKeepsRunes(control + [r], rs[1..]);
      } else {
        var b := e[0];
        FirstOff(b, later);
        PartialOrWhole(c, b);
        if Complete(c + [b]) {
          assert Encode([]) == [];
          kept := DropSGRKeepsRunes([], rs[1..]);
        } else {
          kept := DropSGRKeepsRunes(control + [r], rs[1..]);
        }
      }
    }
  }

  /** A rune that finishes a sequence is ASCII, and the sequence is a colour or kept. */
  lemma FinishedByRune(c: seq<Byte>, r: Rune)
    requires Partial(c) && c != [] && Unfinished(c, EncodeRune(r)) == []
    ensures ESC in DropSGR(c, EncodeRune(r)) || (EncodeRune(r) == [r] && IsSGR(c + [r]))
  {
    var e := EncodeRune(r);
    EncodedRuneIsUniform(r);
    assert e + [] == e;
    if r >= 0x80 {
      if |c| == 1 {
        assert c == [ESC];
      } else {
        SequenceGrows(c, e, []);
      }
    } else {
      assert e[1..] == [] && Complete(c + [r]);
      assert !IsSGR(c + [r]) ==> DropSGR(c, e)[0] == ESC;
    }
  }

  /** Before the last rune of a line that does not end in a colour nothing is unfinished. */
  lemma NothingUnfinished(front: seq<Rune>, r: Rune)
    requires var a := Encode(front) + EncodeRune(r);
             Unfinished([], a) == [] && ESC !in DropSGR([], a) && !EndsInSGR(a)
    ensures Unfinished([], Encode(front)) == []
  {
    var a1, e := Encode(front), EncodeRune(r);
    var c := Unfinished([], a1);
    UnfinishedKind([], a1);
    var d := DropSGRSplit([], a1, e);
    assert ESC !in DropSGR(c, e);
    assert |e| == 1 ==> (a1 + e)[..|a1 + e| - 1] == a1;
    if c != [] { FinishedByRune(c, r); }
  }

  /** And that rune is text. */
  lemma LastRuneIsText(front: seq<Rune>, r: Rune)
    requires var a := Encode(front) + EncodeRune(r);
             Unfinished([], a) == [] && ESC !in DropSGR([], a) && !EndsInSGR(a)
    ensures Unfinished([], Encode(front)) == [] && ESC !in EncodeRune(r)
    ensures DropSGR([], Encode(front) + EncodeRune(r)) == DropSGR([], Encode(front)) + EncodeRune(r)
  {
    NothingUnfinished(front, r);
    hide EndsInSGR;
    var e := EncodeRune(r);
    EncodedRuneIsUniform(r);
    DropSGRConcat([], Encode(front), e);
    assert [ESC][1..] == [] && e + [] == e;
    assert r != ESC;
    TextPasses(e, []);
  }

  /** Text after which a backspace acts on both copies alike. */
  lemma TrimKeepsAgreement(ansi: seq<Byte>, plain: seq<Byte>)
    requires Agree(ansi, plain) && ESC !in plain && WellFormed(ansi) && !EndsInSGR(ansi)
    ensures Agree(TrimLastRune(ansi), TrimLastRune(plain))
  {
    var rs := Decode(ansi);
    if rs != [] {
      var front, r := rs[..|rs| - 1], rs[|rs| - 1];
      assert rs == front + [r];
      EncodeSnoc(front, r);
      LastRuneIsText(front, r);
      assert Encode([]) == [];
      var kept := DropSGRKeepsRunes([], front);
      EncodeSnoc(kept, r);
      DecodeEncode(kept + [r]);
      assert (kept + [r])[..|kept|] == kept;
    }
  }

  // ---- Malformed text ----

  lemma EndsInSGRByKind(ansi: seq<Byte>)
    ensures EndsInSGR(ansi) <==>
            ansi != [] && ansi[|ansi| - 1] == 'm' as Byte && KindAfter(Idle, ansi[..|ansi| - 1]) == InCsi
  {
    if ansi != [] {
      var front := ansi[..|ansi| - 1];
      UnfinishedKind([], front);
      var c := Unfinished([], front);
      assert c != [] ==> c[..|c|] == c && !Complete(c);
    }
  }

  lemma {:induction false} LastHighStaysHigh(s: seq<Byte>)
    requires s != [] && s[|s| - 1] >= 0x80
    ensures Rewritten(s) != [] && Rewritten(s)[|Rewritten(s)| - 1] >= 0x80
    decreases |s|
  {
    var n, e := FirstSize(s), EncodeRune(FirstRune(s));
    var rest := s[n..];
    FirstOff(FirstRune(s), Decode(rest));
    assert Rewritten(s) == e + Rewritten(rest);
    if rest == [] {
      assert s[..n] == s && Rewritten(rest) == [];
    } else {
      LastHighStaysHigh(rest);
    }
  }

  lemma RewritingKeepsEnd(ansi: seq<Byte>)
    ensures EndsInSGR(Rewritten(ansi)) <==> EndsInSGR(ansi)
  {
    EndsInSGRByKind(ansi);
    EndsInSGRByKind(Rewritten(ansi));
    hide EndsInSGR;
    if ansi == [] {
      assert Rewritten([]) == [];
    } else {
      var front, b := ansi[..|ansi| - 1], ansi[|ansi| - 1];
      assert ansi == front + [b];
      if b < 0x80 {
        DecodeSnocAscii(front, b);
        EncodeSnoc(Decode(front), b);
        RewritingKeepsKind(Idle, front);
        assert Rewritten(ansi)[..|Rewritten(ansi)| - 1] == Rewritten(front);
      } else {
        LastHighStaysHigh(ansi);
      }
    }
  }

  // ---- Colours one by one ----

  predicate NonFinal(y: seq<Byte>) {
    forall i | 0 <= i < |y| :: !(0x40 <= y[i] <= 0x7e)
  }

  function Colour(params: seq<Byte>): seq<Byte> {
    [ESC, LBRACKET] + params + ['m' as Byte]
  }

  lemma WholeIsColour(q: seq<Byte>) returns (params: seq<Byte>)
    requires Whole(q) && IsSGR(q)
    ensures q == Colour(params) && NonFinal(params)
  {
    params := q[2..|q| - 1];
    forall i | 0 <= i < |params|
      ensures !(0x40 <= params[i] <= 0x7e)
    {
      var k := i + 3;
      assert q[..k][k - 1] == params[i] && !Complete(q[..k]);
    }
    assert q == Colour(params);
  }

  lemma {:induction false} RewritingKeepsNonFinal(y: seq<Byte>)
    requires NonFinal(y)
    ensures NonFinal(Rewritten(y))
    decreases |y|
  {
    if y != [] {
      var n, e := FirstSize(y), EncodeRune(FirstRune(y));
      FirstOff(FirstRune(y), Decode(y[n..]));
      assert NonFinal(y[n..]) && NonFinal(e);
      RewritingKeepsNonFinal(y[n..]);
      assert Rewritten(y) == e + Rewritten(y[n..]);
    }
  }

  function ColourRunes(params: seq<Rune>): seq<Rune> {
    [ESC, LBRACKET] + params + ['m' as Byte]
  }

  lemma Regroup<T>(e: T, l: T, p: seq<T>, m: T, r: seq<T>)
    ensures [e] + ([l] + (p + ([m] + r))) == ([e, l] + p + [m]) + r
  {
  }

  lemma DecodeColour(x: seq<Byte>, params: seq<Byte>, rest: seq<Byte>)
    ensures Decode(x + (Colour(params) + rest)) == Decode(x) + (ColourRunes(Decode(params)) + Decode(rest))
  {
    var m: Byte := 'm' as Byte;
    var z := params + ([m] + rest);
    Regroup(ESC, LBRACKET, params, m, rest);
    DecodeSplitAscii(x, ESC, [LBRACKET] + z);
    DecodeSplitAscii([], LBRACKET, z);
    DecodeSplitAscii(params, m, rest);
    hide Decode;
    assert [] + ([LBRACKET] + z) == [LBRACKET] + z && Decode([LBRACKET] + z) == [LBRACKET] + Decode(z);
    Regroup<Rune>(ESC, LBRACKET, Decode(params), m, Decode(rest));
  }

  lemma EncodeColour(params: seq<Rune>)
    ensures Encode(ColourRunes(params)) == Colour(Encode(params))
  {
    EncodeConcat([ESC, LBRACKET] + params, ['m' as Byte]);
    EncodeConcat([ESC, LBRACKET], params);
    AsciiEncodes([ESC, LBRACKET]);
    AsciiEncodes(['m' as Byte]);
  }

  /** Text, a colour, and the rest are read apart. */
  lemma DecodeAround(x: seq<Byte>, params: seq<Byte>, rest: seq<Byte>)
    ensures Rewritten(x + (Colour(params) + rest)) == Rewritten(x) + (Colour(Rewritten(params)) + Rewritten(rest))
  {
    DecodeColour(x, params, rest);
    EncodeConcat(Decode(x), ColourRunes(Decode(params)) + Decode(rest));
    EncodeConcat(ColourRunes(Decode(params)), Decode(rest));
    EncodeColour(Decode(params));
  }

  /** The sequence that c begins ends somewhere in s, and what comes after it is read from anew. */
  lemma {:induction false} FirstSequence(c: seq<Byte>, s: seq<Byte>) returns (n: nat)
    requires Partial(c) && c != [] && Unfinished(c, s) == []
    ensures 0 < n <= |s| && Whole(c + s[..n]) && Unfinished([], s[n..]) == []
    ensures DropSGR(c, s) == (if IsSGR(c + s[..n]) then [] else c + s[..n]) + DropSGR([], s[n..])
    decreases s
  {
    var d := c + [s[0]];
    PartialOrWhole(c, s[0]);
    if Complete(d) {
      n := 1;
      assert s[..1] == [s[0]];
    } else {
      n := FirstSequence(d, s[1..]);
      n := n + 1;
      assert d + s[1..][..n - 1] == c + s[..n] && s[1..][n - 1..] == s[n..];
    }
  }

  /** A sequence that is not kept is a colour. */
  lemma ColourHead(s: seq<Byte>) returns (params: seq<Byte>, rest: seq<Byte>)
    requires Unfinished([ESC], s) == [] && ESC !in DropSGR([ESC], s)
    ensures [ESC] + s == Colour(params) + rest && NonFinal(params)
    ensures Unfinished([], rest) == [] && DropSGR([ESC], s) == DropSGR([], rest)
  {
    EscapeIsPartial();
    var n := FirstSequence([ESC], s);
    var q := [ESC] + s[..n];
    rest := s[n..];
    assert (q + DropSGR([], rest))[0] == ESC && [] + DropSGR([], rest) == DropSGR([], rest);
    params := WholeIsColour(q);
    assert [ESC] + s == q + rest;
  }

  /** Text whose sequences are all colours begins with text and then, if there is more, a colour. */
  lemma FirstColour(ansi: seq<Byte>) returns (x: seq<Byte>, params: seq<Byte>, rest: seq<Byte>)
    requires Unfinished([], ansi) == [] && ESC !in DropSGR([], ansi) && ESC in ansi
    ensures ansi == x + (Colour(params) + rest) && ESC !in x && NonFinal(params)
    ensures Unfinished([], rest) == [] && DropSGR([], ansi) == x + DropSGR([], rest)
  {
    var i := FirstEscape(ansi);
    x := ansi[..i];
    var s := ansi[i + 1..];
    assert ansi == x + ([ESC] + s);
    TextPasses(x, [ESC] + s);
    FirstOff(ESC, s);
    assert DropSGR([], ansi) == x + DropSGR([ESC], s) && Unfinished([ESC], s) == [];
    params, rest := ColourHead(s);
  }

  lemma {:induction false} FirstEscape(s: seq<Byte>) returns (i: nat)
    requires ESC in s
    ensures i < |s| && s[i] == ESC && ESC !in s[..i]
  {
    if s[0] == ESC {
      i := 0;
    } else {
      assert s == [s[0]] + s[1..];
      i := FirstEscape(s[1..]);
      i := i + 1;
      assert s[..i] == [s[0]] + s[1..][..i - 1];
    }
  }

  // ---- Runes kept ----

  /**
   What the rewritten text keeps without its colours: at least as many runes as the plain copy has,
   and the same ones if as many, since taking a colour out can only join malformed bytes to a rune.
   */
  lemma {:induction false} KeptRunes(ansi: seq<Byte>) returns (kept: seq<Rune>)
    requires Unfinished([], ansi) == [] && ESC !in DropSGR([], ansi)
    ensures Unfinished([], Rewritten(ansi)) == []
    ensures DropSGR([], Rewritten(ansi)) == Encode(kept) && ESC !in Encode(kept)
    ensures |Decode(DropSGR([], ansi))| <= |kept|
    ensures |Decode(DropSGR([], ansi))| == |kept| ==> Decode(DropSGR([], ansi)) == kept
    decreases |ansi|
  {
    if ESC !in ansi {
      kept := Decode(ansi);
      NothingDropped(ansi);
      RewritingKeepsText(ansi);
      NothingDropped(Rewritten(ansi));
    } else {
      var x, params, rest := FirstColour(ansi);
      var later := KeptRunes(rest);
      kept := Decode(x) + later;
      DecodeAround(x, params, rest);
      RewritingKeepsNonFinal(params);
      RewritingKeepsText(x);
      ColourDropped(Rewritten(x), Rewritten(params), Rewritten(rest));
      EncodeConcat(Decode(x), later);
      DecodeMerge(x, DropSGR([], rest));
    }
  }

  lemma NothingDropped(x: seq<Byte>)
    requires ESC !in x
    ensures DropSGR([], x) == x && Unfinished([], x) == []
  {
    TextPasses(x, []);
    assert x + [] == x;
  }

  lemma RewritingKeepsText(x: seq<Byte>)
    requires ESC !in x
    ensures ESC !in Rewritten(x)
  {
    DecodeKeepsNoEscape(x);
    EncodeKeepsNoEscape(Decode(x));
  }

  lemma ColourDropped(x: seq<Byte>, params: seq<Byte>, rest: seq<Byte>)
    requires ESC !in x && NonFinal(params)
    ensures var s := x + (Colour(params) + rest);
            DropSGR([], s) == x + DropSGR([], rest) && Unfinished([], s) == Unfinished([], rest)
  {
    DropWholeSGR(Colour(params));
    TextPasses(x, Colour(params) + rest);
    DropSGRConcat([], Colour(params), rest);
    assert [] + DropSGR([], rest) == DropSGR([], rest);
  }

  // ---- The exact condition ----

  /** The two copies agree still when malformed bytes are replaced in both. */
  ghost predicate AgreeRewritten(ansi: seq<Byte>, plain: seq<Byte>) {
    Agree(Rewritten(ansi), Rewritten(plain))
  }

  /** A backspace does not tell a text from its rewriting. */
  lemma TrimRewritten(s: seq<Byte>)
    ensures TrimLastRune(Rewritten(s)) == TrimLastRune(s)
  {
    DecodeEncode(Decode(s));
    if Decode(s) == [] { assert s == [] && Rewritten(s) == []; }
  }

  lemma EmptyPlainEndsInColour(ansi: seq<Byte>)
    requires ansi != [] && Agree(ansi, [])
    ensures EndsInSGR(ansi)
  {
    var front, b := ansi[..|ansi| - 1], ansi[|ansi| - 1];
    assert ansi == front + [b] && [b][1..] == [];
    var d := DropSGRSplit([], front, [b]);
    assert DropSGR(Unfinished([], front), [b]) == [];
  }

  /** As many runes kept as the plain copy has: the last of them is taken from both. */
  lemma SameLastRune(ansi: seq<Byte>, plain: seq<Byte>, front: seq<Rune>, r: Rune)
    requires Agree(ansi, plain) && ESC !in plain && !EndsInSGR(ansi) && plain != []
    requires Decode(ansi) == front + [r] && Agree(Encode(front), TrimLastRune(plain))
    ensures AgreeRewritten(ansi, plain)
  {
    var ps := Decode(plain);
    var before := ps[..|ps| - 1];
    var kept := KeptRunes(ansi);
    RewritingKeepsEnd(ansi);
    EncodeSnoc(front, r);
    hide EndsInSGR;
    LastRuneIsText(front, r);
    assert Encode(kept) == Encode(before) + EncodeRune(r);
    EncodeSnoc(before, r);
    DecodeEncode(kept);
    DecodeEncode(before + [r]);
    hide Encode, Decode;
    assert kept == before + [r] && |kept| == |ps|;
  }

  lemma TrimmedAgreeMeansRewritten(ansi: seq<Byte>, plain: seq<Byte>)
    requires Agree(ansi, plain) && ESC !in plain && !EndsInSGR(ansi)
    requires Agree(TrimLastRune(ansi), TrimLastRune(plain))
    ensures AgreeRewritten(ansi, plain)
  {
    if ansi == [] {
      assert DropSGR([], []) == [] && Rewritten([]) == [];
    } else {
      if plain == [] { EmptyPlainEndsInColour(ansi); }
      var rs := Decode(ansi);
      var front, r := rs[..|rs| - 1], rs[|rs| - 1];
      assert rs == front + [r];
      SameLastRune(ansi, plain, front, r);
    }
  }

  /**
   For every text whose copies agree: after a backspace they agree if and only if the text does not
   end in a colour, and they agree still when malformed bytes are replaced.
   */
  lemma TrimAgreesIff(ansi: seq<Byte>, plain: seq<Byte>)
    requires Agree(ansi, plain) && ESC !in plain
    ensures Agree(TrimLastRune(ansi), TrimLastRune(plain)) <==> !EndsInSGR(ansi) && AgreeRewritten(ansi, plain)
  {
    if EndsInSGR(ansi) {
      TrimmedColourIsUnfinished(ansi);
    } else {
      if AgreeRewritten(ansi, plain) {
        RewritingKeepsText(plain);
        RewritingKeepsEnd(ansi);
        DecodeEncode(Decode(ansi));
        TrimKeepsAgreement(Rewritten(ansi), Rewritten(plain));
        TrimRewritten(ansi);
        TrimRewritten(plain);
      }
      if Agree(TrimLastRune(ansi), TrimLastRune(plain)) {
        TrimmedAgreeMeansRewritten(ansi, plain);
      }
    }
  }

  /** Whole runes agree when rewritten, since nothing is. */
  lemma WholeRunesAgree(ansi: seq<Byte>, plain: seq<Byte>)
    requires Agree(ansi, plain) && ESC !in plain && WellFormed(ansi)
    ensures AgreeRewritten(ansi, plain)
  {
    assert Encode([]) == [];
    var kept := DropSGRKeepsRunes([], Decode(ansi));
    DecodeEncode(kept);
  }

  /** The plain text that the next byte acts on. */
  function EffectivePlain(m: Main): seq<Byte> {
    if m.cr then [] else m.plain
  }

  /** A backspace that keeps the copies in agreement. */
  ghost predicate Harmless(m: Main) {
    !EndsInSGR(Effective(m)) && AgreeRewritten(Effective(m), EffectivePlain(m))
  }

  /** For every line, malformed text included. */
  lemma BackspaceKeepsAgreement(g: Grid, m: Main)
    requires CopiesAgree(m) && ESC !in m.plain
    ensures CopiesAgree(Put(g, m, Text(BS))) <==> Harmless(m)
    ensures WellFormed(Effective(m)) ==> (Harmless(m) <==> !EndsInSGR(Effective(m)))
  {
    TrimAgreesIff(Effective(m), EffectivePlain(m));
    assert DropSGR([], []) == [];
    if WellFormed(Effective(m)) { WholeRunesAgree(Effective(m), EffectivePlain(m)); }
  }

  /** A colour inside a rune makes a backspace part the copies as well. */
  lemma SplitRunePartsCopies()
    ensures var ansi: seq<Byte> := [0xC3, ESC, LBRACKET, 'm' as Byte, 0xA9]; var plain: seq<Byte> := [0xC3, 0xA9];
            && Agree(ansi, plain) && ESC !in plain && !EndsInSGR(ansi)
            && !Agree(TrimLastRune(ansi), TrimLastRune(plain))
  {
    var ansi: seq<Byte> := [0xC3, ESC, LBRACKET, 'm' as Byte, 0xA9];
    var q: seq<Byte> := [ESC, LBRACKET, 'm' as Byte];
    assert Whole(q) by { assert q[..1] == [ESC] && q[..2] == [ESC, LBRACKET]; }
    DropWholeSGR(q);
    assert ansi == [0xC3] + (q + [0xA9]);
    TextPasses([0xC3], q + [0xA9]);
    DropSGRConcat([], q, [0xA9]);
    assert [0xA9][1..] == [] && [] + [0xA9] == [0xA9];
    assert ansi[..4] == [0xC3] + q;
    TextPasses([0xC3], q);
    SplitRuneTrims(ansi, [0xC3, 0xA9]);
    hide TrimLastRune;
    assert DropSGR([], TrimLastRune(ansi))[0] == 0xEF;
  }

  lemma SplitRuneTrims(ansi: seq<Byte>, plain: seq<Byte>)
    requires |ansi| > 1 && ansi[0] == 0xC3 && ansi[1] == ESC && plain == [0xC3, 0xA9]
    ensures TrimLastRune(plain) == [] && TrimLastRune(ansi) != [] && TrimLastRune(ansi)[0] == 0xEF
  {
    assert EncodeRune(0xE9) == [0xC3, 0xA9] && Encode([0xE9]) == [0xC3, 0xA9] by { assert [0xE9][1..] == []; }
    DecodeEncode([0xE9]);
    assert [0xE9][..0] == [];
    var rs := Decode(ansi);
    assert Decode(ansi[1..]) != [];
    assert rs == [REPLACEMENT] + Decode(ansi[1..]);
    assert rs[..|rs| - 1][0] == REPLACEMENT;
  }

  // ---- Streams ----

  lemma {:induction false} DecodeKeepsNoEscape(s: seq<Byte>)
    requires ESC !in s
    ensures ESC !in Decode(s)
    decreases |s|
  {
    if s != [] {
      DecodeKeepsNoEscape(s[FirstSize(s)..]);
    }
  }

  lemma {:induction false} EncodeKeepsNoEscape(rs: seq<Rune>)
    requires ESC !in rs
    ensures ESC !in Encode(rs)
  {
    if rs != [] {
      EncodedRuneIsUniform(rs[0]);
      EncodeKeepsNoEscape(rs[1..]);
    }
  }

  /** No control sequence ever gets into the plain copy. */
  lemma PutKeepsNoEscape(g: Grid, m: Main, t: Token)
    requires ESC !in m.plain && GoodToken(t)
    ensures ESC !in Put(g, m, t).plain
  {
    if t == Text(BS) {
      DecodeKeepsNoEscape(m.plain);
      EncodeKeepsNoEscape(Decode(m.plain)[..if m.plain == [] then 0 else |Decode(m.plain)| - 1]);
      assert Decode([]) == [];
    }
  }

  /** Byte k of the stream is a backspace written on the main screen. */
  predicate BackspaceAt(s: Screen, p: seq<Byte>, k: nat)
    requires k < |p|
  {
    p[k] == BS && ModeAfter(s.mode, p[..k]) == Mode([], false)
  }

  ghost predicate Tracked(s: Screen) {
    Partial(s.mode.control) && ESC !in s.main.plain
  }

  /** One byte either leaves the lines alone or puts one whole token on them. */
  lemma FeedOneToken(s: Screen, b: Byte) returns (t: Option<Token>)
    requires Partial(s.mode.control)
    ensures Feed(s, [b]).main == if t.Some? then Put(s.grid, s.main, t.value) else s.main
    ensures t.Some? ==> GoodToken(t.value)
    ensures t == Some(Text(BS)) <==> b == BS && s.mode == Mode([], false)
  {
    LexGood(s.mode, [b]);
    LexOne(s.mode, b);
    var toks := Tokens(s.mode, [b]);
    assert |toks| <= 1;
    if toks == [] {
      t := None;
    } else {
      t := Some(toks[0]);
      assert toks == [toks[0]] && GoodToken(toks[0]) && [toks[0]][1..] == [];
      hide Put;
      assert PutAll(s.grid, s.main, [toks[0]]) == PutAll(s.grid, Put(s.grid, s.main, toks[0]), []);
    }
  }

  lemma FeedByteKeepsAgreement(s: Screen, b: Byte)
    requires Tracked(s) && CopiesAgree(s.main)
    ensures Tracked(Feed(s, [b]))
    ensures CopiesAgree(Feed(s, [b]).main) <==> !(b == BS && s.mode == Mode([], false)) || Harmless(s.main)
  {
    var t := FeedOneToken(s, b);
    LexGood(s.mode, [b]);
    hide Put, Feed, CopiesAgree, Harmless;
    if t.Some? {
      PutKeepsNoEscape(s.grid, s.main, t.value);
      if t.value == Text(BS) {
        BackspaceKeepsAgreement(s.grid, s.main);
      } else {
        PutKeepsAgreement(s.grid, s.main, t.value);
      }
    }
  }

  /** No backspace in the stream meets a line that it would part. */
  ghost predicate AllHarmless(s: Screen, p: seq<Byte>) {
    forall k | 0 <= k < |p| && BackspaceAt(s, p, k) :: Harmless(Feed(s, p[..k]).main)
  }

  lemma FeedUpTo(s: Screen, p: seq<Byte>, k: nat)
    requires k < |p|
    ensures Feed(s, p[..k + 1]) == Feed(Feed(s, p[..k]), [p[k]])
    ensures Feed(s, p[..k]).mode == ModeAfter(s.mode, p[..k])
  {
    assert p[..k + 1] == p[..k] + [p[k]];
    FeedConcat(s, p[..k], [p[k]]);
  }

  lemma FeedNothing(s: Screen, p: seq<Byte>)
    ensures p[..0] == [] && Feed(s, p[..0]) == s
  {
  }

  lemma {:induction false} AgreementUpTo(s: Screen, p: seq<Byte>, k: nat)
    requires Tracked(s) && CopiesAgree(s.main) && AllHarmless(s, p) && k <= |p|
    ensures Tracked(Feed(s, p[..k])) && CopiesAgree(Feed(s, p[..k]).main)
    decreases k
  {
    hide Feed, CopiesAgree, Harmless;
    if k == 0 {
      FeedNothing(s, p);
    } else {
      AgreementUpTo(s, p, k - 1);
      FeedUpTo(s, p, k - 1);
      assert BackspaceAt(s, p, k - 1) ==> Harmless(Feed(s, p[..k - 1]).main);
      FeedByteKeepsAgreement(Feed(s, p[..k - 1]), p[k - 1]);
    }
  }

  lemma {:induction false} TrackedUpTo(s: Screen, p: seq<Byte>, k: nat)
    requires Tracked(s) && k <= |p| && forall i | 0 <= i <= |p| :: CopiesAgree(Feed(s, p[..i]).main)
    ensures Tracked(Feed(s, p[..k]))
    decreases k
  {
    hide Feed, CopiesAgree, Harmless;
    if k == 0 {
      FeedNothing(s, p);
    } else {
      TrackedUpTo(s, p, k - 1);
      FeedUpTo(s, p, k - 1);
      FeedByteKeepsAgreement(Feed(s, p[..k - 1]), p[k - 1]);
    }
  }

  /**
   For every stream: the copies agree after every byte of it if and only if every backspace on the
   main screen is harmless, that is, comes neither right after a colour nor on text whose copies part
   when malformed bytes are replaced.
   */
  lemma CopiesAgreeIffBackspacesHarmless(s: Screen, p: seq<Byte>)
    requires Tracked(s) && CopiesAgree(s.main)
    ensures (forall k | 0 <= k <= |p| :: CopiesAgree(Feed(s, p[..k]).main)) <==> AllHarmless(s, p)
  {
    if AllHarmless(s, p) {
      forall k | 0 <= k <= |p|
        ensures CopiesAgree(Feed(s, p[..k]).main)
      {
        AgreementUpTo(s, p, k);
      }
    }
    if forall k | 0 <= k <= |p| :: CopiesAgree(Feed(s, p[..k]).main) {
      forall k | 0 <= k < |p| && BackspaceAt(s, p, k)
        ensures Harmless(Feed(s, p[..k]).main)
      {
        TrackedUpTo(s, p, k);
        FeedUpTo(s, p, k);
        assert CopiesAgree(Feed(s, p[..k + 1]).main);
        FeedByteKeepsAgreement(Feed(s, p[..k]), p[k]);
      }
    }
  }
}
