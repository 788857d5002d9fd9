/** The finished lines with their colours, and the observed lines, as functions of the whole stream. */
module CaptureLines {
  import opened Bytes
  import opened Utf8
  import opened Ansi
  import opened Capture
  import opened CaptureTheorems
  import opened CaptureHistory

  // ---- One line ----

  predicate Colour(t: Token) { t.Control? && IsSGR(t.q) }

  /** ED 2, ED 3 or a full reset. */
  predicate Erases(t: Token) {
    t.Control? && (t.q == [0x1b, '[' as Byte, '2' as Byte, 'J' as Byte] ||
                   t.q == [0x1b, '[' as Byte, '3' as Byte, 'J' as Byte] || t.q == [0x1b, 'c' as Byte])
  }

  ghost predicate Kept(toks: seq<Token>) {
    MainTokens(toks) && forall t | t in toks :: !Erases(t)
  }

  /** The piece ends with a carriage return, colours after it aside. */
  predicate Held(s: seq<Token>) {
    s != [] && (s[|s| - 1] == Text(CR) || (Colour(s[|s| - 1]) && Held(s[..|s| - 1])))
  }

  /** Returns at the end, and the colours after them, are part of the line break. */
  function Settle(s: seq<Token>): seq<Token> {
    if Held(s) then Settle(s[..|s| - 1]) else s
  }

  /** What follows the last return; another sequence right behind a return takes the colours in between with it. */
  function AfterReturn(s: seq<Token>): seq<Token> {
    if s == [] then []
    else
      var front, t := s[..|s| - 1], s[|s| - 1];
      if t == Text(CR) || (t.Control? && !Colour(t) && Held(front)) then [] else AfterReturn(front) + [t]
  }

  function ShowToken(before: seq<Byte>, t: Token, colours: bool): seq<Byte> {
    match t
    case Text(b) => TypeByte(before, b)
    case Control(q) => if colours && IsSGR(q) then before + q else before
  }

  /** The text of a piece, with its colour sequences at their places or without them. */
  function Shown(s: seq<Token>, colours: bool): seq<Byte> {
    if s == [] then [] else ShowToken(Shown(s[..|s| - 1], colours), s[|s| - 1], colours)
  }

  function Cooked(s: seq<Token>): Line {
    var x := AfterReturn(Settle(s));
    Line(Shown(x, true), Shown(x, false))
  }

  /** The tokens between two line feeds, the unfinished line last. */
  function Pieces(toks: seq<Token>): (r: seq<seq<Token>>)
    ensures |r| > 0
  {
    if toks == [] then [[]]
    else
      var before, t := Pieces(toks[..|toks| - 1]), toks[|toks| - 1];
      if t == Text(LF) then before + [[]] else before[|before| - 1 := before[|before| - 1] + [t]]
  }

  function CookedAll(pieces: seq<seq<Token>>): seq<Line> {
    seq(|pieces|, i requires 0 <= i < |pieces| => Cooked(pieces[i]))
  }

  lemma NotHeldSettles(s: seq<Token>, t: Token)
    requires t != Text(CR) && (Colour(t) ==> !Held(s))
    ensures Settle(s + [t]) == s + [t] && !Held(s + [t])
  {
    assert (s + [t])[..|s|] == s;
  }

  lemma AfterReturnSnoc(s: seq<Token>, t: Token)
    ensures AfterReturn(s + [t]) ==
            if t == Text(CR) || (t.Control? && !Colour(t) && Held(s)) then [] else AfterReturn(s) + [t]
  {
    assert (s + [t])[..|s|] == s;
  }

  lemma ShownSnoc(s: seq<Token>, t: Token, colours: bool)
    ensures Shown(s + [t], colours) == ShowToken(Shown(s, colours), t, colours)
  {
    assert (s + [t])[..|s|] == s;
  }

  /** Nothing but colours follows a return that is held. */
  lemma {:induction false} HeldShowsNothing(s: seq<Token>)
    requires Held(s)
    ensures Shown(AfterReturn(s), false) == []
  {
    var front, t := s[..|s| - 1], s[|s| - 1];
    assert s == front + [t];
    AfterReturnSnoc(front, t);
    if t != Text(CR) {
      HeldShowsNothing(front);
      ShownSnoc(AfterReturn(front), t, false);
    }
  }

  /** The line being written is what the tokens since the last line feed come to. */
  ghost predicate Current(m: Main, s: seq<Token>) {
    && Line(m.ansi, m.plain) == Cooked(s)
    && m.cr == Held(s)
    && (m.cr ==> m.crAnsi == Shown(AfterReturn(s), true))
  }

  lemma ReturnKeepsCurrent(g: Grid, m: Main, s: seq<Token>)
    requires Current(m, s)
    ensures Current(PutByte(g, m, CR), s + [Text(CR)])
  {
    assert (s + [Text(CR)])[..|s|] == s;
    AfterReturnSnoc(s, Text(CR));
  }

  lemma TextKeepsCurrent(g: Grid, m: Main, s: seq<Token>, b: Byte)
    requires Current(m, s) && b != CR && b != LF
    ensures Current(PutByte(g, m, b), s + [Text(b)])
  {
    NotHeldSettles(s, Text(b));
    AfterReturnSnoc(s, Text(b));
    var x := AfterReturn(s);
    ShownSnoc(x, Text(b), true);
    ShownSnoc(x, Text(b), false);
    if Held(s) { HeldShowsNothing(s); }
    hide Shown, AfterReturn;
  }

  lemma ColourKeepsCurrent(m: Main, s: seq<Token>, q: seq<Byte>)
    requires Current(m, s) && IsSGR(q)
    ensures Current(PutControl(m, q), s + [Control(q)])
  {
    var t := Control(q);
    assert (s + [t])[..|s|] == s;
    AfterReturnSnoc(s, t);
    ShownSnoc(AfterReturn(s), t, true);
    ShownSnoc(AfterReturn(s), t, false);
    if !Held(s) { NotHeldSettles(s, t); }
    hide Shown, AfterReturn;
  }

  lemma SequenceKeepsCurrent(m: Main, s: seq<Token>, q: seq<Byte>)
    requires Current(m, s) && !IsSGR(q) && !Erases(Control(q))
    ensures Current(PutControl(m, q), s + [Control(q)])
  {
    var t := Control(q);
    NotHeldSettles(s, t);
    AfterReturnSnoc(s, t);
    ShownSnoc(AfterReturn(s), t, true);
    ShownSnoc(AfterReturn(s), t, false);
    hide AfterReturn;
  }

  // ---- All lines ----

  /** Finished lines and the current one match the pieces of the tokens put. */
  ghost predicate Lined(m: Main, earlier: seq<Line>, toks: seq<Token>) {
    var pieces := Pieces(toks);
    Finished(m) == earlier + CookedAll(pieces[..|pieces| - 1]) && Current(m, pieces[|pieces| - 1])
  }

  lemma PieceGrows(toks: seq<Token>, t: Token)
    ensures var before := Pieces(toks); var n := |before|;
            Pieces(toks + [t]) == if t == Text(LF) then before + [[]] else before[n - 1 := before[n - 1] + [t]]
  {
    assert (toks + [t])[..|toks|] == toks;
  }

  lemma CookedAllSnoc(pieces: seq<seq<Token>>, s: seq<Token>)
    ensures CookedAll(pieces + [s]) == CookedAll(pieces) + [Cooked(s)]
  {
  }

  lemma LineBreakKeepsLined(g: Grid, m: Main, earlier: seq<Line>, toks: seq<Token>)
    requires Lined(m, earlier, toks)
    ensures Lined(PutByte(g, m, LF), earlier, toks + [Text(LF)])
  {
    var pieces := Pieces(toks);
    var n := |pieces|;
    PieceGrows(toks, Text(LF));
    FinishAddsLine(g, if m.cr then m.(cr := false, crAnsi := []) else m);
    CookedAllSnoc(pieces[..n - 1], pieces[n - 1]);
    assert pieces[..n - 1] + [pieces[n - 1]] == pieces && (pieces + [[]])[..n] == pieces;
    assert Cooked([]) == Line([], []);
    hide Cooked;
    assert Finished(PutByte(g, m, LF)) == Finished(m) + [Line(m.ansi, m.plain)];
  }

  lemma PutKeepsFinished(g: Grid, m: Main, t: Token)
    requires t != Text(LF) && !Erases(t)
    ensures Finished(Put(g, m, t)) == Finished(m)
  {
  }

  lemma PutKeepsLined(g: Grid, m: Main, earlier: seq<Line>, toks: seq<Token>, t: Token)
    requires Lined(m, earlier, toks) && !Erases(t)
    ensures Lined(Put(g, m, t), earlier, toks + [t])
  {
    var pieces := Pieces(toks);
    var n := |pieces|;
    if t == Text(LF) {
      LineBreakKeepsLined(g, m.(obs := Observe(m.obs, [LF])), earlier, toks);
    } else {
      PieceGrows(toks, t);
      PutKeepsFinished(g, m, t);
      assert Pieces(toks + [t])[..n - 1] == pieces[..n - 1];
      match t {
        case Text(b) =>
          var seen := m.(obs := Observe(m.obs, [b]));
          if b == CR { ReturnKeepsCurrent(g, seen, pieces[n - 1]); } else { TextKeepsCurrent(g, seen, pieces[n - 1], b); }
        case Control(q) =>
          var seen := m.(obs := Observe(m.obs, q));
          if IsSGR(q) { ColourKeepsCurrent(seen, pieces[n - 1], q); } else { SequenceKeepsCurrent(seen, pieces[n - 1], q); }
      }
    }
  }

  lemma {:induction false} TokensAreLined(g: Grid, m: Main, toks: seq<Token>)
    requires m.ansi == [] && m.plain == [] && !m.cr
    requires forall t | t in toks :: !Erases(t)
    ensures Lined(PutAll(g, m, toks), Finished(m), toks)
  {
    if toks == [] {
      assert Finished(m) + CookedAll([]) == Finished(m);
    } else {
      var front, t := toks[..|toks| - 1], toks[|toks| - 1];
      assert t in toks && forall x | x in front :: x in toks;
      TokensAreLined(g, m, front);
      assert toks == front + [t] && [t][1..] == [];
      PutAllConcat(g, m, front, [t]);
      PutKeepsLined(g, PutAll(g, m, front), Finished(m), front, t);
    }
  }

  /**
   For every stream without ED 2, ED 3 and full resets, however it is cut into reads: each captured
   line is the text since the line feed before it, once with the colour sequences at their places and
   once without them.
   */
  lemma CapturedLines(g: Grid, toks: seq<Token>, chunks: seq<seq<Byte>>)
    requires Kept(toks) && Flatten(chunks) == Spell(toks)
    ensures var m := FeedAll(Fresh(g), chunks).main;
            Finished(m) + [Line(m.ansi, m.plain)] == CookedAll(Pieces(toks))
  {
    FeedSpelled(g, toks, chunks);
    var start := Fresh(g).main;
    assert Finished(start) == [];
    TokensAreLined(g, start, toks);
    hide *;
    LinedMeansAll(PutAll(g, start, toks), toks);
  }

  lemma LinedMeansAll(m: Main, toks: seq<Token>)
    requires Lined(m, [], toks)
    ensures Finished(m) + [Line(m.ansi, m.plain)] == CookedAll(Pieces(toks))
  {
    var pieces := Pieces(toks);
    var n := |pieces|;
    hide Cooked;
    CookedAllSnoc(pieces[..n - 1], pieces[n - 1]);
    assert pieces[..n - 1] + [pieces[n - 1]] == pieces;
  }

  // ---- The observer ----

  function NonEmpty(lines: seq<seq<Byte>>): seq<seq<Byte>> {
    if lines == [] then []
    else NonEmpty(lines[..|lines| - 1]) + if lines[|lines| - 1] == [] then [] else [lines[|lines| - 1]]
  }

  ghost predicate Watched(o: Observed, text: seq<Byte>) {
    var pieces := Split(text, LF);
    && o.lines == NonEmpty(CleanAll(pieces[..|pieces| - 1]))
    && o.plain == Clean(Last(pieces))
    && o.cr == EndsWithCR(Last(pieces))
    && o.control == []
  }

  lemma ObserveTyped(o: Observed, b: Byte)
    requires o.control == [] && b != ESC && b != LF
    ensures var r := ObserveByte(o, b);
            && r.lines == o.lines && r.control == [] && r.cr == (b == CR)
            && r.plain == if b == CR then o.plain else TypeByte(if o.cr then [] else o.plain, b)
  {
  }

  lemma LineBreakIsWatched(o: Observed, text: seq<Byte>)
    requires Watched(o, text)
    ensures Watched(ObserveByte(o, LF), text + [LF])
  {
    var pieces := Split(text, LF);
    var n := |pieces|;
    SplitSnoc(text, LF, LF);
    assert (pieces + [[]])[..n] == pieces;
    CleanAllSnoc(pieces);
    var cleaned := CleanAll(pieces);
    assert Clean([]) == [];
    hide Clean;
    assert cleaned[..n - 1] == CleanAll(pieces[..n - 1]) && cleaned[n - 1] == Clean(Last(pieces));
  }

  lemma ByteIsWatched(o: Observed, text: seq<Byte>, b: Byte)
    requires Watched(o, text) && b != ESC && b != LF
    ensures Watched(ObserveByte(o, b), text + [b])
  {
    var pieces := Split(text, LF);
    var line := Last(pieces);
    SplitSnoc(text, LF, b);
    ObserveTyped(o, b);
    if b == CR {
      assert (line + [CR])[..|line|] == line;
    } else {
      CleanSnoc(line, b);
    }
    hide Clean, ObserveByte, Split;
    var pieces' := Behind(pieces, b);
    assert pieces'[..|pieces| - 1] == pieces[..|pieces| - 1] && Last(pieces') == line + [b];
  }

  lemma {:induction false} TokensAreWatched(g: Grid, m: Main, toks: seq<Token>)
    requires m.obs == Observed([], [], [], false)
    requires GoodTokens(toks) && forall t | t in toks :: !Erases(t)
    ensures Watched(PutAll(g, m, toks).obs, TextOf(toks))
  {
    if toks == [] {
      assert Split([], LF) == [[]];
    } else {
      var front, t := toks[..|toks| - 1], toks[|toks| - 1];
      assert t in toks && forall x | x in front :: x in toks;
      TokensAreWatched(g, m, front);
      assert toks == front + [t] && [t][1..] == [];
      PutAllConcat(g, m, front, [t]);
      var n := PutAll(g, m, front);
      assert GoodToken(t);
      match t {
        case Text(b) =>
          assert [b][1..] == [] && Observe(n.obs, [b]) == ObserveByte(n.obs, b);
          if b == LF { LineBreakIsWatched(n.obs, TextOf(front)); } else { ByteIsWatched(n.obs, TextOf(front), b); }
          PutKeepsObserver(g, n.(obs := Observe(n.obs, [b])), b);
        case Control(q) =>
          ObserverIgnoresSequences(n.obs, q);
          assert TextOf(front) + [] == TextOf(front);
          ControlKeepsObserver(n, q);
      }
    }
  }

  lemma PutKeepsObserver(g: Grid, m: Main, b: Byte)
    ensures PutByte(g, m, b).obs == m.obs
  {
  }

  lemma ControlKeepsObserver(m: Main, q: seq<Byte>)
    requires !Erases(Control(q))
    ensures PutControl(m, q).obs == m.obs
  {
  }

  /** On the same streams the observer has the lines of the bare text that are not empty, sequences of any kind removed. */
  lemma ObservedLines(g: Grid, toks: seq<Token>, chunks: seq<seq<Byte>>)
    requires Kept(toks) && Flatten(chunks) == Spell(toks)
    ensures var o := FeedAll(Fresh(g), chunks).main.obs;
            var lines := Batch(TextOf(toks));
            o.lines == NonEmpty(lines[..|lines| - 1]) && o.plain == lines[|lines| - 1]
  {
    FeedSpelled(g, toks, chunks);
    TokensAreWatched(g, Fresh(g).main, toks);
    var pieces := Split(TextOf(toks), LF);
    CleanAllSnoc(pieces);
  }
}
