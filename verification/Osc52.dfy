/** Clipboard writes: the OSC 52 sequences sent to a terminal and the decoder that finds them in a stream. */
module Osc52 {
  import opened Bytes
  import Base64

  const MAX_PAYLOAD := 1024 * 1024

  // ---- Sending ----

  const INTRO: seq<Byte> := [ESC, RBRACKET, '5' as Byte, '2' as Byte, SEMICOLON]

  function BuildOSC52(text: seq<Byte>): seq<Byte> {
    INTRO + (['c' as Byte, SEMICOLON] + Base64.Encode(text) + [BEL])
  }

  function DoubleEscapes(s: seq<Byte>): seq<Byte> {
    if s == [] then [] else (if s[0] == ESC then [ESC, ESC] else [s[0]]) + DoubleEscapes(s[1..])
  }

  const TMUX_OPEN: seq<Byte> := [ESC, 'P' as Byte, 't' as Byte, 'm' as Byte, 'u' as Byte, 'x' as Byte, SEMICOLON]
  const TMUX_CLOSE: seq<Byte> := [ESC, BACKSLASH]

  /** The plain sequence and the form that tmux passes on. */
  function ClipboardOutputSequence(text: seq<Byte>): seq<Byte> {
    BuildOSC52(text) + TMUX_OPEN + DoubleEscapes(BuildOSC52(text)) + TMUX_CLOSE
  }

  // ---- Receiving ----

  /** What follows the first separator. */
  function AfterSeparator(s: seq<Byte>): Option<seq<Byte>> {
    if s == [] then None else if s[0] == SEMICOLON then Some(s[1..]) else AfterSeparator(s[1..])
  }

  function DecodePayload(payload: seq<Byte>): Option<seq<Byte>> {
    match AfterSeparator(payload)
    case None => None
    case Some(encoded) =>
      if encoded == [] || encoded == ['?' as Byte] then None
      else if Base64.DecodeStd(encoded).Some? then Base64.DecodeStd(encoded)
      else Base64.DecodeRaw(encoded)
  }

  datatype Decoder = Decoder(state: nat, payload: seq<Byte>)

  function TextOf(payload: seq<Byte>): seq<seq<Byte>> {
    match DecodePayload(payload) case None => [] case Some(text) => [text]
  }

  function Restart(d: Decoder, b: Byte): Decoder {
    d.(state := if b == ESC then 1 else 0)
  }

  /** One byte: the new state and the clipboard texts completed by it. */
  function Step(d: Decoder, b: Byte): (Decoder, seq<seq<Byte>>) {
    var idle := Decoder(0, []);
    if d.state == 0 then (if b == ESC then d.(state := 1) else d, [])
    else if d.state == 1 then (if b == RBRACKET then d.(state := 2) else Restart(d, b), [])
    else if d.state == 2 then (if b == '5' as Byte then d.(state := 3) else Restart(d, b), [])
    else if d.state == 3 then (if b == '2' as Byte then d.(state := 4) else Restart(d, b), [])
    else if d.state == 4 then (if b == SEMICOLON then Decoder(5, []) else Restart(d, b), [])
    else if d.state == 5 then
      if b == BEL then (idle, TextOf(d.payload))
      else if b == ESC then (d.(state := 6), [])
      else (if |d.payload| >= MAX_PAYLOAD then idle else d.(payload := d.payload + [b]), [])
    else if b == BACKSLASH then (idle, TextOf(d.payload))
    else (if |d.payload| + 2 > MAX_PAYLOAD then idle else Decoder(5, d.payload + [ESC, b]), [])
  }

  function After(d: Decoder, p: seq<Byte>): Decoder
    decreases p
  {
    if p == [] then d else After(Step(d, p[0]).0, p[1..])
  }

  function Texts(d: Decoder, p: seq<Byte>): seq<seq<Byte>>
    decreases p
  {
    if p == [] then [] else Step(d, p[0]).1 + Texts(Step(d, p[0]).0, p[1..])
  }

  class Osc52Decoder {
    var state: nat
    var payload: seq<Byte>

    ghost predicate Valid()
      reads this
    {
      state <= 6 && |payload| <= MAX_PAYLOAD
    }

    ghost function Model(): Decoder
      reads this
    {
      Decoder(state, payload)
    }

    constructor ()
      ensures Valid() && Model() == Decoder(0, [])
    {
      state, payload := 0, [];
    }

    method Restarted(b: Byte)
      modifies this`state
      ensures Model() == Restart(old(Model()), b)
    {
      state := 0;
      if b == ESC {
        state := 1;
      }
    }

    method Reset()
      modifies this
      ensures Model() == Decoder(0, [])
    {
      state := 0;
      payload := [];
    }

    method Accept(b: Byte) returns (texts: seq<seq<Byte>>)
      requires Valid()
      modifies this
      ensures Valid() && Model() == Step(old(Model()), b).0 && texts == Step(old(Model()), b).1
    {
      texts := [];
      match state {
        case 0 => if b == ESC { state := 1; }
        case 1 => if b == RBRACKET { state := 2; } else { Restarted(b); }
        case 2 => if b == '5' as Byte { state := 3; } else { Restarted(b); }
        case 3 => if b == '2' as Byte { state := 4; } else { Restarted(b); }
        case 4 => if b == SEMICOLON { state := 5; payload := []; } else { Restarted(b); }
        case 5 =>
          if b == BEL {
            texts := Finish();
          } else if b == ESC {
            state := 6;
          } else if |payload| >= MAX_PAYLOAD {
            Reset();
          } else {
            payload := payload + [b];
          }
        case _ =>
          if b == BACKSLASH {
            texts := Finish();
          } else if |payload| + 2 > MAX_PAYLOAD {
            Reset();
          } else {
            payload := payload + [ESC, b];
            state := 5;
          }
      }
    }

    method Finish() returns (texts: seq<seq<Byte>>)
      modifies this
      ensures Model() == Decoder(0, []) && texts == TextOf(old(payload))
    {
      texts := [];
      var decoded := DecodePayload(payload);
      if decoded.Some? {
        texts := [decoded.value];
      }
      Reset();
    }

    /** The clipboard texts completed by p; the payload is within its cap on any input. */
    method Write(p: seq<Byte>) returns (texts: seq<seq<Byte>>)
      requires Valid()
      modifies this
      ensures Valid() && Model() == After(old(Model()), p) && texts == Texts(old(Model()), p)
    {
      texts := [];
      for i := 0 to |p|
        invariant Valid()
        invariant After(Model(), p[i..]) == After(old(Model()), p)
        invariant texts + Texts(Model(), p[i..]) == Texts(old(Model()), p)
      {
        assert p[i..][1..] == p[i + 1..];
        ghost var d := Model();
        Associative(texts, Step(d, p[i]).1, Texts(Step(d, p[i]).0, p[i + 1..]));
        var more := Accept(p[i]);
        texts := texts + more;
      }
      assert p[|p|..] == [];
    }
  }

  // ---- Streams ----

  lemma {:induction false} FeedConcat(d: Decoder, p: seq<Byte>, q: seq<Byte>)
    ensures After(d, p + q) == After(After(d, p), q)
    ensures Texts(d, p + q) == Texts(d, p) + Texts(After(d, p), q)
    decreases p
  {
    if p == [] {
      assert p + q == q && Texts(d, p) + Texts(d, q) == Texts(d, q);
    } else {
      assert (p + q)[1..] == p[1..] + q;
      var e := Step(d, p[0]);
      FeedConcat(e.0, p[1..], q);
      Associative(e.1, Texts(e.0, p[1..]), Texts(After(e.0, p[1..]), q));
    }
  }

  lemma FeedOne(d: Decoder, b: Byte)
    ensures After(d, [b]) == Step(d, b).0 && Texts(d, [b]) == Step(d, b).1
  {
  }

  /** All texts of a stream cut into reads. */
  function TextsOfChunks(d: Decoder, chunks: seq<seq<Byte>>): seq<seq<Byte>>
    decreases chunks
  {
    if chunks == [] then [] else Texts(d, chunks[0]) + TextsOfChunks(After(d, chunks[0]), chunks[1..])
  }

  lemma {:induction false} ChunkIndependent(d: Decoder, chunks: seq<seq<Byte>>)
    ensures TextsOfChunks(d, chunks) == Texts(d, Flatten(chunks))
    decreases chunks
  {
    if chunks != [] {
      ChunkIndependent(After(d, chunks[0]), chunks[1..]);
      FeedConcat(d, chunks[0], Flatten(chunks[1..]));
    }
  }

  // ---- Round trip ----

  /** Five bytes begin a payload, whatever the decoder was in the middle of. */
  lemma Introduction(d: Decoder)
    requires d.state <= 4
    ensures After(d, INTRO) == Decoder(5, []) && Texts(d, INTRO) == []
  {
    var i := INTRO;
    assert i[1..] == [RBRACKET, '5' as Byte, '2' as Byte, SEMICOLON];
    assert i[1..][1..] == ['5' as Byte, '2' as Byte, SEMICOLON];
    assert i[1..][1..][1..] == ['2' as Byte, SEMICOLON];
    assert i[1..][1..][1..][1..] == [SEMICOLON];
    var d1 := Step(d, ESC).0;
    assert d1.state == 1 && Step(d, ESC).1 == [];
    var d2 := d1.(state := 2);
    var d3 := d1.(state := 3);
    var d4 := d1.(state := 4);
    FeedOne(d4, SEMICOLON);
    assert After(d3, ['2' as Byte, SEMICOLON]) == After(d4, [SEMICOLON]);
    assert After(d2, i[1..][1..]) == After(d3, i[1..][1..][1..]);
    assert Texts(d3, ['2' as Byte, SEMICOLON]) == Texts(d4, [SEMICOLON]);
    assert Texts(d2, i[1..][1..]) == Texts(d3, i[1..][1..][1..]);
    assert Texts(d1, i[1..]) == Texts(d2, i[1..][1..]);
  }

  predicate Printable(s: seq<Byte>) {
    forall i | 0 <= i < |s| :: s[i] != ESC && s[i] != BEL
  }

  /** Ordinary bytes fill the payload until it is full; one more and all of it is dropped. */
  lemma {:induction false} Fill(payload: seq<Byte>, x: seq<Byte>)
    requires Printable(x) && |payload| <= MAX_PAYLOAD
    ensures Texts(Decoder(5, payload), x) == []
    ensures After(Decoder(5, payload), x) ==
            if |payload| + |x| <= MAX_PAYLOAD then Decoder(5, payload + x) else Decoder(0, [])
    decreases x
  {
    if x == [] {
      assert payload + x == payload;
    } else {
      assert forall i | 0 <= i < |x[1..]| :: x[1..][i] == x[i + 1];
      if |payload| >= MAX_PAYLOAD {
        Skip(Decoder(0, []), x[1..]);
      } else {
        Fill(payload + [x[0]], x[1..]);
        assert payload + [x[0]] + x[1..] == payload + x;
      }
    }
  }

  lemma {:induction false} Skip(d: Decoder, x: seq<Byte>)
    requires d.state == 0 && ESC !in x
    ensures After(d, x) == d && Texts(d, x) == []
    decreases x
  {
    if x != [] {
      Skip(d, x[1..]);
    }
  }

  predicate Fits(text: seq<Byte>) {
    2 + 4 * ((|text| + 2) / 3) <= MAX_PAYLOAD
  }

  lemma AfterSelection(encoded: seq<Byte>)
    ensures AfterSeparator(['c' as Byte, SEMICOLON] + encoded) == Some(encoded)
  {
  }

  lemma PayloadDecodes(text: seq<Byte>)
    ensures DecodePayload(['c' as Byte, SEMICOLON] + Base64.Encode(text)) ==
            if text == [] then None else Some(text)
  {
    AfterSelection(Base64.Encode(text));
    Base64.RoundTrip(text);
    Base64.EncodedLength(text);
  }

  lemma EncodedIsPrintable(text: seq<Byte>)
    ensures Printable(['c' as Byte, SEMICOLON] + Base64.Encode(text))
  {
    Base64.EncodedIsPlain(text);
    var x := ['c' as Byte, SEMICOLON] + Base64.Encode(text);
    forall i | 0 <= i < |x|
      ensures x[i] != ESC && x[i] != BEL
    {
      if i >= 2 { assert x[i] == Base64.Encode(text)[i - 2]; assert Base64.Plain(x[i]); }
    }
  }

  /**
   From any state outside a payload, a sequence built for a text decodes to that text and nothing
   else exactly when the text is not empty and its encoding fits the payload cap; otherwise to
   nothing. The decoder is idle afterwards.
   */
  lemma BuiltSequenceDecodes(d: Decoder, text: seq<Byte>)
    requires d.state <= 4
    ensures Texts(d, BuildOSC52(text)) == if text != [] && Fits(text) then [text] else []
    ensures After(d, BuildOSC52(text)) == Decoder(0, [])
  {
    var x := ['c' as Byte, SEMICOLON] + Base64.Encode(text);
    Introduction(d);
    FeedConcat(d, INTRO, x + [BEL]);
    var d5 := Decoder(5, []);
    EncodedIsPrintable(text);
    Fill([], x);
    assert [] + x == x;
    FeedConcat(d5, x, [BEL]);
    FeedOne(After(d5, x), BEL);
    PayloadDecodes(text);
    Base64.EncodedLength(text);
  }

  lemma {:induction false} NothingToDouble(s: seq<Byte>)
    requires ESC !in s
    ensures DoubleEscapes(s) == s
  {
    if s != [] {
      NothingToDouble(s[1..]);
    }
  }

  lemma LeadingEscapeDoubled(rest: seq<Byte>)
    requires ESC !in rest
    ensures DoubleEscapes([ESC] + rest) == [ESC] + ([ESC] + rest)
  {
    NothingToDouble(rest);
    assert ([ESC] + rest)[1..] == rest;
    assert [ESC, ESC] + rest == [ESC] + ([ESC] + rest);
  }

  lemma OneEscapeDoubled(text: seq<Byte>)
    ensures DoubleEscapes(BuildOSC52(text)) == [ESC] + BuildOSC52(text)
  {
    var x, head := ['c' as Byte, SEMICOLON] + Base64.Encode(text), [RBRACKET, '5' as Byte, '2' as Byte, SEMICOLON];
    EncodedIsPrintable(text);
    assert BuildOSC52(text) == [ESC] + (head + (x + [BEL])) by { assert INTRO == [ESC] + head; }
    hide DoubleEscapes, BuildOSC52, Base64.Encode;
    assert ESC !in x && ESC !in head + (x + [BEL]);
    LeadingEscapeDoubled(head + (x + [BEL]));
  }

  /** With its ESC doubled the sequence still decodes, since ESC after ESC begins again. */
  lemma DoubledSequenceDecodes(d: Decoder, text: seq<Byte>)
    requires d.state <= 4
    ensures Texts(d, DoubleEscapes(BuildOSC52(text))) == Texts(d, BuildOSC52(text))
    ensures After(d, DoubleEscapes(BuildOSC52(text))) == Decoder(0, [])
  {
    var e, first := Step(d, ESC).0, Step(d, ESC).1;
    assert e.state <= 4 && first == [];
    hide *;
    OneEscapeDoubled(text);
    FeedOne(d, ESC);
    FeedConcat(d, [ESC], BuildOSC52(text));
    BuiltSequenceDecodes(e, text);
    BuiltSequenceDecodes(d, text);
  }

  /** An ESC that no ']' follows, and bytes without another, leave an idle decoder idle. */
  lemma OtherEscape(b: Byte, x: seq<Byte>)
    requires b != RBRACKET && b != ESC && ESC !in x
    ensures var p := [ESC, b] + x;
            After(Decoder(0, []), p) == Decoder(0, []) && Texts(Decoder(0, []), p) == []
  {
    var idle := Decoder(0, []);
    assert [ESC, b] + x == [ESC] + ([b] + x);
    FeedConcat(idle, [ESC], [b] + x);
    FeedOne(idle, ESC);
    FeedConcat(Decoder(1, []), [b], x);
    FeedOne(Decoder(1, []), b);
    Skip(idle, x);
  }

  lemma Silent(d: Decoder, p: seq<Byte>, q: seq<Byte>)
    requires After(d, p) == Decoder(0, []) && After(Decoder(0, []), q) == Decoder(0, [])
    ensures After(d, p + q) == Decoder(0, []) && Texts(d, p + q) == Texts(d, p) + Texts(Decoder(0, []), q)
  {
    FeedConcat(d, p, q);
  }

  /** What is written to a terminal that may be inside tmux decodes to the text twice, under the same condition. */
  lemma ClipboardOutputDecodes(d: Decoder, text: seq<Byte>)
    requires d.state <= 4
    ensures Texts(d, ClipboardOutputSequence(text)) == if text != [] && Fits(text) then [text, text] else []
    ensures After(d, ClipboardOutputSequence(text)) == Decoder(0, [])
  {
    var osc := BuildOSC52(text);
    var twice, idle := DoubleEscapes(osc), Decoder(0, []);
    assert ClipboardOutputSequence(text) == osc + TMUX_OPEN + twice + TMUX_CLOSE;
    TmuxIsSilent();
    hide *;
    BuiltSequenceDecodes(d, text);
    BuiltSequenceDecodes(idle, text);
    DoubledSequenceDecodes(idle, text);
    var texts := Texts(d, osc);
    Silent(d, osc, TMUX_OPEN);
    assert texts + [] == texts;
    Silent(d, osc + TMUX_OPEN, twice);
    Silent(d, osc + TMUX_OPEN + twice, TMUX_CLOSE);
    assert texts + texts + [] == texts + texts;
  }

  /** The passthrough wrapping itself carries no text. */
  lemma TmuxIsSilent()
    ensures After(Decoder(0, []), TMUX_OPEN) == Decoder(0, []) && Texts(Decoder(0, []), TMUX_OPEN) == []
    ensures After(Decoder(0, []), TMUX_CLOSE) == Decoder(0, []) && Texts(Decoder(0, []), TMUX_CLOSE) == []
  {
    assert TMUX_OPEN == [ESC, 'P' as Byte] + TMUX_OPEN[2..];
    OtherEscape('P' as Byte, TMUX_OPEN[2..]);
    assert TMUX_CLOSE == [ESC, BACKSLASH] + [];
    OtherEscape(BACKSLASH, []);
  }
}
