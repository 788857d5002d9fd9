/** What the captured history promises: four results about every stream. */
module CaptureTheorems {
  import opened Bytes
  import opened Utf8
  import opened Ansi
  import opened Capture

  // ---- Alternate-screen erasure ----

  /** A whole control sequence passes through the observer without a trace. */
  lemma {:induction false} ObserverHolds(o: Observed, q: seq<Byte>, k: nat)
    requires o.control == [] && Whole(q) && 0 < k < |q|
    ensures Observe(o, q[..k]) == o.(control := q[..k])
  {
    if k == 1 {
      assert q[..1] == [ESC] && [ESC][1..] == [];
    } else {
      ObserverHolds(o, q, k - 1);
      assert q[..k] == q[..k - 1] + [q[k - 1]];
      ObserveConcat(o, q[..k - 1], [q[k - 1]]);
      assert [q[k - 1]][1..] == [];
    }
  }

  lemma {:induction false} ObserveConcat(o: Observed, p: seq<Byte>, q: seq<Byte>)
    ensures Observe(o, p + q) == Observe(Observe(o, p), q)
    decreases p
  {
    if p == [] {
      assert p + q == q;
    } else {
      ObserveConcat(ObserveByte(o, p[0]), p[1..], q);
      assert (p + q)[1..] == p[1..] + q;
    }
  }

  /** A control sequence handed to the observer leaves it exactly as it was. */
  lemma ObserverIgnoresSequences(o: Observed, q: seq<Byte>)
    requires o.control == [] && Whole(q)
    ensures Observe(o, q) == o
  {
    LexWhole(false, q);
    var k := |q| - 1;
    ObserverHolds(o, q, k);
    ObserveConcat(o, q[..k], [q[k]]);
    assert [q[k]][1..] == [];
  }

  /** The observer never stops in the middle of a sequence, at any byte of any stream. */
  lemma {:induction false} ObserverNeverHalfway(g: Grid, m: Main, toks: seq<Token>)
    requires m.obs.control == [] && GoodTokens(toks)
    ensures PutAll(g, m, toks).obs.control == []
    decreases toks
  {
    if toks != [] {
      assert GoodToken(toks[0]);
      match toks[0] {
        case Text(b) => assert Observe(m.obs, [b]) == ObserveByte(m.obs, b) by { assert [b][1..] == []; }
        case Control(q) => ObserverIgnoresSequences(m.obs, q);
      }
      ObserverNeverHalfway(g, Put(g, m, toks[0]), toks[1..]);
    }
  }

  lemma ObservedControlStaysEmpty(s: Screen, p: seq<Byte>)
    requires Partial(s.mode.control) && s.main.obs.control == []
    ensures Feed(s, p).main.obs.control == []
    ensures Partial(Feed(s, p).mode.control)
  {
    LexGood(s.mode, p);
    ObserverNeverHalfway(s.grid, s.main, Tokens(s.mode, p));
  }

  /**
   Running a program on the alternate screen leaves every captured field as it was: history, live
   lines, the line being written, a pending carriage return, and the observer.
   */
  lemma AlternateScreenErased(s: Screen, enter: seq<Byte>, body: seq<Byte>, leave: seq<Byte>)
    requires s.mode.control == []
    requires Whole(enter) && SwitchOf(enter) == Some(true)
    requires Whole(leave) && SwitchOf(leave) == Some(false)
    requires Unfinished([], body) == [] && StaysAlternate([], body)
    ensures Feed(s, enter + body + leave) == s.(mode := Mode([], false))
  {
    AlternateSegmentIsSilent(s.mode.alt, enter, body, leave);
  }

  /** Deleting such a segment from a stream changes nothing that was captured. */
  lemma AlternateSegmentDeleted(s: Screen, before: seq<Byte>, enter: seq<Byte>, body: seq<Byte>,
                                leave: seq<Byte>, after: seq<Byte>)
    requires Feed(s, before).mode == Mode([], false)
    requires Whole(enter) && SwitchOf(enter) == Some(true)
    requires Whole(leave) && SwitchOf(leave) == Some(false)
    requires Unfinished([], body) == [] && StaysAlternate([], body)
    ensures Feed(s, before + (enter + body + leave) + after) == Feed(s, before + after)
  {
    var x := enter + body + leave;
    AlternateScreenErased(Feed(s, before), enter, body, leave);
    FeedConcat(s, before, x);
    FeedConcat(s, before + x, after);
    FeedConcat(s, before, after);
  }

  /** p with everything drawn on the alternate screen deleted, the switching sequences included. */
  function MainScreenOnly(mode: Mode, p: seq<Byte>): seq<Byte> {
    Spell(Tokens(mode, p))
  }

  /**
   For every stream at all, capturing it equals capturing what is left of it after deletion, and
   the remainder never enters the alternate screen nor ends half-read.
   */
  lemma CaptureSeesMainScreenOnly(s: Screen, p: seq<Byte>)
    requires Partial(s.mode.control)
    ensures var rest := MainScreenOnly(s.mode, p);
            Feed(s.(mode := Mode([], false)), rest)
            == Feed(s, p).(mode := Mode([], false))
    ensures MainScreenOnly(Mode([], false), MainScreenOnly(s.mode, p)) == MainScreenOnly(s.mode, p)
  {
    LexMainTokens(s.mode, p);
    ReadSpelled(Tokens(s.mode, p));
  }

  // ---- The ANSI and the plain copy of a line agree ----

  /** p without its SGR sequences, cut by the parser's own completeness rule; c is the sequence being read. */
  function DropSGR(c: seq<Byte>, p: seq<Byte>): seq<Byte>
    decreases p
  {
    if p == [] then c
    else if c != [] then
      if Complete(c + [p[0]]) then
        (if IsSGR(c + [p[0]]) then [] else c + [p[0]]) + DropSGR([], p[1..])
      else DropSGR(c + [p[0]], p[1..])
    else if p[0] == ESC then DropSGR([ESC], p[1..])
    else [p[0]] + DropSGR([], p[1..])
  }

  lemma {:induction false} DropSGRConcat(c: seq<Byte>, p: seq<Byte>, q: seq<Byte>)
    requires Unfinished(c, p) == []
    ensures DropSGR(c, p + q) == DropSGR(c, p) + DropSGR([], q)
    ensures Unfinished(c, p + q) == Unfinished([], q)
    decreases p
  {
    if p == [] {
      assert p + q == q;
    } else {
      assert (p + q)[1..] == p[1..] + q;
      if c != [] && !Complete(c + [p[0]]) {
        DropSGRConcat(c + [p[0]], p[1..], q);
      } else if c == [] && p[0] == ESC {
        DropSGRConcat([ESC], p[1..], q);
      } else {
        DropSGRConcat([], p[1..], q);
      }
    }
  }

  lemma {:induction false} DropSGRFrom(q: seq<Byte>, k: nat)
    requires Whole(q) && 0 < k < |q|
    ensures DropSGR(q[..k], q[k..]) == if IsSGR(q) then [] else q
    ensures Unfinished(q[..k], q[k..]) == []
    decreases |q| - k
  {
    assert q[k..][1..] == q[k + 1..];
    assert q[..k] + [q[k]] == q[..k + 1];
    if k + 1 == |q| {
      assert q[..k + 1] == q;
    } else {
      DropSGRFrom(q, k + 1);
    }
  }

  lemma DropWholeSGR(q: seq<Byte>)
    requires Whole(q)
    ensures DropSGR([], q) == if IsSGR(q) then [] else q
    ensures Unfinished([], q) == []
  {
    LexWhole(false, q);
    assert q[..1] == [ESC];
    DropSGRFrom(q, 1);
  }

  /** ansi is plain with whole SGR sequences put in. */
  ghost predicate Agree(ansi: seq<Byte>, plain: seq<Byte>) {
    Unfinished([], ansi) == [] && DropSGR([], ansi) == plain
  }

  ghost predicate LinesAgree(lines: seq<Line>) {
    forall i | 0 <= i < |lines| :: Agree(lines[i].ansi, lines[i].plain)
  }

  ghost predicate CopiesAgree(m: Main) {
    LinesAgree(m.evicted) && LinesAgree(m.pending) && Agree(m.ansi, m.plain) && Agree(m.crAnsi, [])
  }

  lemma AgreeGrows(ansi: seq<Byte>, plain: seq<Byte>, x: seq<Byte>)
    requires Agree(ansi, plain)
    requires (|x| == 1 && x[0] != ESC) || (Whole(x) && IsSGR(x))
    ensures Agree(ansi + x, if |x| == 1 then plain + x else plain)
  {
    DropSGRConcat([], ansi, x);
    if |x| == 1 {
      assert x[1..] == [];
    } else {
      DropWholeSGR(x);
    }
  }

  lemma FinishKeepsAgreement(g: Grid, m: Main)
    requires CopiesAgree(m)
    ensures CopiesAgree(FinishLine(g, m))
  {
  }

  lemma PutKeepsAgreement(g: Grid, m: Main, t: Token)
    requires CopiesAgree(m) && GoodToken(t) && t != Text(BS)
    ensures CopiesAgree(Put(g, m, t))
  {
    match t
    case Text(b) =>
      var m0 := m.(obs := Observe(m.obs, [b]));
      var n := if m0.cr then m0.(cr := false, plain := [], ansi := m0.crAnsi, crAnsi := []) else m0;
      if m0.cr && b == LF {
        FinishKeepsAgreement(g, m0.(cr := false, crAnsi := []));
      } else if b == CR {
      } else if b == LF {
        FinishKeepsAgreement(g, n);
      } else if b == TAB || b >= 0x20 {
        AgreeGrows(n.ansi, n.plain, [b]);
      }
    case Control(q) =>
      if IsSGR(q) {
        AgreeGrows(m.crAnsi, [], q);
        AgreeGrows(m.ansi, m.plain, q);
        AgreeGrows([], [], q);
        assert [] + q == q;
      }
  }

  /** Every stored line, and the line being written, is its plain copy plus SGR sequences. */
  lemma {:induction false} AnsiAndPlainAgree(g: Grid, m: Main, toks: seq<Token>)
    requires CopiesAgree(m) && GoodTokens(toks) && Text(BS) !in toks
    ensures CopiesAgree(PutAll(g, m, toks))
    decreases toks
  {
    if toks != [] {
      assert GoodToken(toks[0]);
      PutKeepsAgreement(g, m, toks[0]);
      AnsiAndPlainAgree(g, Put(g, m, toks[0]), toks[1..]);
    }
  }

  /** The same for a stream of bytes: no backspace written on the main screen, no difference. */
  lemma FeedKeepsAgreement(s: Screen, p: seq<Byte>)
    requires Partial(s.mode.control) && CopiesAgree(s.main)
    requires Text(BS) !in Tokens(s.mode, p)
    ensures CopiesAgree(Feed(s, p).main)
  {
    LexGood(s.mode, p);
    AnsiAndPlainAgree(s.grid, s.main, Tokens(s.mode, p));
  }
}
