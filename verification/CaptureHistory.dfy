/** The lines a stream leaves behind: a batch description of them, and their independence of resizes. */
module CaptureHistory {
  import opened Bytes
  import opened Utf8
  import opened Ansi
  import opened Capture
  import opened CaptureTheorems

  /** Every finished line, oldest first. */
  function Finished(m: Main): seq<Line> {
    m.evicted + m.pending
  }

  function Plains(lines: seq<Line>): seq<seq<Byte>> {
    seq(|lines|, i requires 0 <= i < |lines| => lines[i].plain)
  }

  // ---- The batch discipline ----

  function DropTrailingCR(s: seq<Byte>): seq<Byte> {
    if s != [] && s[|s| - 1] == CR then DropTrailingCR(s[..|s| - 1]) else s
  }

  function AfterLastCR(s: seq<Byte>): seq<Byte> {
    if s == [] || s[|s| - 1] == CR then [] else AfterLastCR(s[..|s| - 1]) + [s[|s| - 1]]
  }

  /** Tabs and printable bytes are kept, and a backspace takes a rune back. */
  function TypeByte(line: seq<Byte>, b: Byte): seq<Byte> {
    if b == BS then TrimLastRune(line) else if b == TAB || b >= 0x20 then line + [b] else line
  }

  function Typed(s: seq<Byte>): seq<Byte> {
    if s == [] then [] else TypeByte(Typed(s[..|s| - 1]), s[|s| - 1])
  }

  /** What a line shows in the end: trailing returns are part of the line break, an earlier one starts it over. */
  function Clean(s: seq<Byte>): seq<Byte> {
    Typed(AfterLastCR(DropTrailingCR(s)))
  }

  function CleanAll(pieces: seq<seq<Byte>>): seq<seq<Byte>> {
    seq(|pieces|, i requires 0 <= i < |pieces| => Clean(pieces[i]))
  }

  /** The lines of a text without control sequences, the unfinished one last. */
  function Batch(text: seq<Byte>): seq<seq<Byte>> {
    CleanAll(Split(text, LF))
  }

  /** Text, control bytes, and whole SGR sequences. */
  ghost predicate LineToken(t: Token) {
    GoodToken(t) && (t.Control? ==> IsSGR(t.q))
  }

  ghost predicate LineTokens(toks: seq<Token>) {
    forall i | 0 <= i < |toks| :: LineToken(toks[i])
  }

  function TextOf(toks: seq<Token>): seq<Byte> {
    if toks == [] then []
    else TextOf(toks[..|toks| - 1]) +
         match toks[|toks| - 1] { case Text(b) => [b] case Control(_) => [] }
  }

  function Last(s: seq<seq<Byte>>): seq<Byte>
    requires s != []
  {
    s[|s| - 1]
  }

  predicate EndsWithCR(s: seq<Byte>) { s != [] && s[|s| - 1] == CR }

  lemma CleanSnoc(s: seq<Byte>, b: Byte)
    requires b != CR
    ensures Clean(s + [b]) == TypeByte(if EndsWithCR(s) then [] else Clean(s), b)
  {
    var t := s + [b];
    assert t[..|s|] == s;
    assert DropTrailingCR(t) == t;
    assert AfterLastCR(t) == AfterLastCR(s) + [b];
    var u := AfterLastCR(s);
    assert (u + [b])[..|u|] == u;
    assert Typed(u + [b]) == TypeByte(Typed(u), b);
    if !EndsWithCR(s) {
      assert DropTrailingCR(s) == s;
    }
  }

  /** The state after some tokens matches the batch description of their text, after the lines already there. */
  ghost predicate Matches(m: Main, earlier: seq<seq<Byte>>, text: seq<Byte>) {
    var pieces := Split(text, LF);
    && Plains(Finished(m)) == earlier + CleanAll(pieces[..|pieces| - 1])
    && m.plain == Clean(Last(pieces))
    && m.cr == EndsWithCR(Last(pieces))
  }

  lemma FinishAddsLine(g: Grid, m: Main)
    ensures Finished(FinishLine(g, m)) == Finished(m) + [Line(m.ansi, m.plain)]
    ensures FinishLine(g, m).plain == [] && FinishLine(g, m).cr == m.cr
  {
  }

  lemma CleanAllSnoc(pieces: seq<seq<Byte>>)
    requires pieces != []
    ensures CleanAll(pieces) == CleanAll(pieces[..|pieces| - 1]) + [Clean(Last(pieces))]
  {
  }

  lemma LineBreakMatches(g: Grid, m: Main, earlier: seq<seq<Byte>>, text: seq<Byte>)
    requires Matches(m, earlier, text)
    ensures Matches(PutByte(g, m, LF), earlier, text + [LF])
  {
    var pieces := Split(text, LF);
    SplitSnoc(text, LF, LF);
    FinishAddsLine(g, if m.cr then m.(cr := false, crAnsi := []) else m);
    assert Plains(Finished(PutByte(g, m, LF))) == Plains(Finished(m)) + [m.plain];
    CleanAllSnoc(pieces);
    assert (pieces + [[]])[..|pieces|] == pieces;
  }

  lemma PutByteMatches(g: Grid, m: Main, earlier: seq<seq<Byte>>, text: seq<Byte>, b: Byte)
    requires Matches(m, earlier, text) && b != LF
    ensures Matches(PutByte(g, m, b), earlier, text + [b])
  {
    var pieces := Split(text, LF);
    var line := Last(pieces);
    SplitSnoc(text, LF, b);
    var pieces' := Behind(pieces, b);
    assert pieces'[..|pieces| - 1] == pieces[..|pieces| - 1] && Last(pieces') == line + [b];
    PutByteShows(g, m, b);
    if b == CR {
      assert (line + [CR])[..|line|] == line;
    } else {
      CleanSnoc(line, b);
    }
  }

  lemma PutByteShows(g: Grid, m: Main, b: Byte)
    requires b != LF
    ensures var r := PutByte(g, m, b);
            && Finished(r) == Finished(m) && r.cr == (b == CR)
            && r.plain == if b == CR then m.plain else TypeByte(if m.cr then [] else m.plain, b)
  {
  }

  lemma {:induction false} TokensMatchBatch(g: Grid, m: Main, earlier: seq<seq<Byte>>, toks: seq<Token>)
    requires LineTokens(toks)
    requires Plains(Finished(m)) == earlier && m.plain == [] && !m.cr
    ensures Matches(PutAll(g, m, toks), earlier, TextOf(toks))
  {
    if toks == [] {
      assert Split([], LF) == [[]];
      assert earlier + CleanAll([]) == earlier;
    } else {
      var front, t := toks[..|toks| - 1], toks[|toks| - 1];
      TokensMatchBatch(g, m, earlier, front);
      assert toks == front + [t];
      PutAllConcat(g, m, front, [t]);
      assert [t][1..] == [];
      var n := PutAll(g, m, front);
      match t {
        case Text(b) =>
          var seen := n.(obs := Observe(n.obs, [b]));
          if b == LF { LineBreakMatches(g, seen, earlier, TextOf(front)); }
          else { PutByteMatches(g, seen, earlier, TextOf(front), b); }
        case Control(q) =>
          assert LineToken(t);
          assert TextOf(toks) == TextOf(front) + [] == TextOf(front);
          assert IsSGR(q) && PutAll(g, m, toks) == Put(g, n, t);
      }
    }
  }

  lemma {:induction false} DropSGRIsText(toks: seq<Token>)
    requires LineTokens(toks)
    ensures DropSGR([], Spell(toks)) == TextOf(toks)
    ensures Unfinished([], Spell(toks)) == []
  {
    if toks != [] {
      var front, t := toks[..|toks| - 1], toks[|toks| - 1];
      DropSGRIsText(front);
      assert toks == front + [t];
      SpellConcat(front, [t]);
      assert [t][1..] == [];
      assert Spell([t]) == TokenBytes(t);
      DropSGRConcat([], Spell(front), TokenBytes(t));
      assert LineToken(t);
      match t {
        case Text(b) => assert [b][1..] == [];
        case Control(q) => DropWholeSGR(q);
      }
    }
  }

  lemma {:induction false} SgrTokensStayMain(toks: seq<Token>)
    requires LineTokens(toks)
    ensures MainTokens(toks)
  {
  }

  lemma TokensGiveBatch(g: Grid, toks: seq<Token>)
    requires LineTokens(toks)
    ensures var m := PutAll(g, Fresh(g).main, toks);
            Plains(Finished(m)) + [m.plain] == Batch(TextOf(toks))
  {
    var m := Fresh(g).main;
    assert Plains(Finished(m)) == [];
    TokensMatchBatch(g, m, [], toks);
    hide PutAll, Clean, TextOf, Split;
    CleanAllSnoc(Split(TextOf(toks), LF));
  }

  /** Feeding what a main-screen token sequence spells puts exactly those tokens, however it is cut. */
  lemma FeedSpelled(g: Grid, toks: seq<Token>, chunks: seq<seq<Byte>>)
    requires MainTokens(toks) && Flatten(chunks) == Spell(toks)
    ensures FeedAll(Fresh(g), chunks).main == PutAll(g, Fresh(g).main, toks)
  {
    hide MainTokens, PutAll, Spell, Tokens;
    ChunkingIsInvisible(Fresh(g), chunks);
    ReadSpelled(toks);
  }

  /**
   For every stream of text, control bytes and whole SGR sequences, however it is cut into reads: the
   captured lines and the current line are the batch discipline applied to the stream without its SGR.
   */
  lemma StreamingIsBatch(g: Grid, toks: seq<Token>, chunks: seq<seq<Byte>>)
    requires LineTokens(toks) && Flatten(chunks) == Spell(toks)
    ensures var m := FeedAll(Fresh(g), chunks).main;
            Plains(Finished(m)) + [m.plain] == Batch(DropSGR([], Flatten(chunks)))
  {
    hide *;
    SgrTokensStayMain(toks);
    FeedSpelled(g, toks, chunks);
    DropSGRIsText(toks);
    TokensGiveBatch(g, toks);
  }

  // ---- Resizes ----

  datatype Event = Write(p: seq<Byte>) | Resize(cols: int, rows: int)

  function Run(s: Screen, evs: seq<Event>): Screen
    decreases evs
  {
    if evs == [] then s
    else
      var s' := match evs[0] { case Write(p) => Feed(s, p) case Resize(c, r) => Resized(s, c, r) };
      Run(s', evs[1..])
  }

  /** All that was written, resizes forgotten. */
  function Written(evs: seq<Event>): seq<Byte> {
    if evs == [] then []
    else (match evs[0] { case Write(p) => p case Resize(_, _) => [] }) + Written(evs[1..])
  }

  /** Everything but the place where finished lines divide into evicted and pending. */
  ghost predicate SameMain(a: Main, b: Main) {
    && Finished(a) == Finished(b)
    && a.(evicted := [], pending := []) == b.(evicted := [], pending := [])
  }

  ghost predicate SameHistory(a: Screen, b: Screen) {
    a.mode == b.mode && SameMain(a.main, b.main)
  }

  /** No sequence erases just one side of that division (a full reset erases both). */
  ghost predicate NoErase(toks: seq<Token>) {
    forall t | t in toks && t.Control? ::
      !IsEraseDisplay(t.q, '2' as Byte) && !IsEraseDisplay(t.q, '3' as Byte)
  }

  lemma FlushKeepsFinished(g: Grid, m: Main)
    ensures SameMain(Flush(g, m), m)
  {
  }

  lemma PutKeepsSameness(g: Grid, h: Grid, a: Main, b: Main, t: Token)
    requires SameMain(a, b)
    requires t.Control? ==> !IsEraseDisplay(t.q, '2' as Byte) && !IsEraseDisplay(t.q, '3' as Byte)
    ensures SameMain(Put(g, a, t), Put(h, b, t))
  {
    var x, y := a.(evicted := [], pending := []), b.(evicted := [], pending := []);
    assert x.plain == y.plain && x.ansi == y.ansi && x.cr == y.cr && x.crAnsi == y.crAnsi && x.obs == y.obs;
    assert a.plain == b.plain && a.ansi == b.ansi && a.cr == b.cr && a.crAnsi == b.crAnsi && a.obs == b.obs;
    if t == Text(LF) {
      var o := Observe(a.obs, [LF]);
      var a', b' := a.(obs := o, cr := false, crAnsi := []), b.(obs := o, cr := false, crAnsi := []);
      if !a.cr { a', b' := a.(obs := o), b.(obs := o); }
      FinishAddsLine(g, a');
      FinishAddsLine(h, b');
    }
  }

  lemma {:induction false} PutAllKeepsSameness(g: Grid, h: Grid, a: Main, b: Main, toks: seq<Token>)
    requires SameMain(a, b) && NoErase(toks)
    ensures SameMain(PutAll(g, a, toks), PutAll(h, b, toks))
    decreases toks
  {
    if toks != [] {
      assert toks[0] in toks;
      PutKeepsSameness(g, h, a, b, toks[0]);
      assert forall t | t in toks[1..] :: t in toks;
      PutAllKeepsSameness(g, h, Put(g, a, toks[0]), Put(h, b, toks[0]), toks[1..]);
    }
  }

  /** Two runs that differ only in where the lines divide stay that way. */
  lemma {:induction false} RunsKeepSameness(a: Screen, b: Screen, evs: seq<Event>)
    requires SameHistory(a, b) && NoErase(Tokens(a.mode, Written(evs)))
    ensures SameHistory(Run(a, evs), Feed(b, Written(evs)))
    decreases evs
  {
    if evs != [] {
      var rest := evs[1..];
      match evs[0] {
        case Write(p) =>
          LexConcat(a.mode, p, Written(rest));
          FeedConcat(b, p, Written(rest));
          var toks := Tokens(a.mode, p);
          assert forall t | t in toks :: t in toks + Tokens(ModeAfter(a.mode, p), Written(rest));
          PutAllKeepsSameness(a.grid, b.grid, a.main, b.main, toks);
          RunsKeepSameness(Feed(a, p), Feed(b, p), rest);
        case Resize(c, r) =>
          assert Written(evs) == Written(rest);
          FlushKeepsFinished(Grid(c, r), a.main);
          RunsKeepSameness(Resized(a, c, r), b, rest);
      }
    }
  }

  /**
   Finished lines, the line being written and the observer depend on what was written and not on
   when, how often or to what size the screen was resized.
   */
  lemma ResizesKeepHistory(s: Screen, evs: seq<Event>)
    requires NoErase(Tokens(s.mode, Written(evs)))
    ensures SameHistory(Run(s, evs), Feed(s, Written(evs)))
  {
    RunsKeepSameness(s, s, evs);
  }

  // ---- Erasing the display or the history ----

  /** ED 2 for '2', ED 3 for '3'. */
  function Erase(mode: Byte): seq<Byte> {
    [ESC, LBRACKET, mode, 'J' as Byte]
  }

  predicate Erasing(mode: Byte) { mode == '2' as Byte || mode == '3' as Byte }

  /** An erase tells two divisions of the same lines apart: it erases one side only. */
  lemma EraseSeesDivision(a: Main, b: Main, mode: Byte)
    requires Erasing(mode) && SameMain(a, b)
    ensures SameMain(PutControl(a, Erase(mode)), PutControl(b, Erase(mode))) <==> |a.evicted| == |b.evicted|
  {
    var x, y := PutControl(a, Erase(mode)), PutControl(b, Erase(mode));
    SameOtherwise(a, b);
    assert x.(evicted := [], pending := []) == y.(evicted := [], pending := []);
    assert |Finished(a)| == |Finished(b)| == |a.evicted| + |a.pending| == |b.evicted| + |b.pending|;
    if |a.evicted| == |b.evicted| {
      assert a.evicted == Finished(a)[..|a.evicted|] == b.evicted;
      assert a.pending == Finished(a)[|a.evicted|..] == b.pending;
    }
    if mode == '2' as Byte {
      assert Finished(x) == a.evicted && Finished(y) == b.evicted;
    } else {
      assert Finished(x) == a.pending && Finished(y) == b.pending;
    }
  }

  lemma SameOtherwise(a: Main, b: Main)
    requires SameMain(a, b)
    ensures a.plain == b.plain && a.ansi == b.ansi && a.cr == b.cr && a.crAnsi == b.crAnsi && a.obs == b.obs
  {
    var x, y := a.(evicted := [], pending := []), b.(evicted := [], pending := []);
    assert x.plain == y.plain && x.ansi == y.ansi && x.cr == y.cr && x.crAnsi == y.crAnsi && x.obs == y.obs;
  }

  /**
   Two runs that write the same and resize differently leave the same history behind an erase if and
   only if they have evicted equally many lines when it arrives.
   */
  lemma EraseSeesEvictions(s: Screen, evs: seq<Event>, evs': seq<Event>, mode: Byte)
    requires Written(evs) == Written(evs') && NoErase(Tokens(s.mode, Written(evs))) && Erasing(mode)
    requires Feed(s, Written(evs)).mode == Mode([], false) && Feed(s, Written(evs)).main.obs.control == []
    ensures SameHistory(Feed(Run(s, evs), Erase(mode)), Feed(Run(s, evs'), Erase(mode)))
            <==> |Run(s, evs).main.evicted| == |Run(s, evs').main.evicted|
  {
    var a, b := Run(s, evs), Run(s, evs');
    ResizesKeepHistory(s, evs);
    ResizesKeepHistory(s, evs');
    SameOtherwise(a.main, Feed(s, Written(evs)).main);
    SameOtherwise(b.main, Feed(s, Written(evs)).main);
    assert SameMain(a.main, b.main);
    EraseIsOneToken(a, mode);
    EraseIsOneToken(b, mode);
    EraseSeesDivision(a.main, b.main, mode);
  }

  /**
   A resize right before an erase leaves what the erase alone leaves if and only if the resize is
   refused or evicts nothing.
   */
  lemma EraseSeesResize(s: Screen, cols: int, rows: int, mode: Byte)
    requires s.mode == Mode([], false) && s.main.obs.control == [] && Erasing(mode)
    ensures SameHistory(Run(s, [Resize(cols, rows), Write(Erase(mode))]), Run(s, [Write(Erase(mode))]))
            <==> cols <= 0 || rows <= 0 || EvictCount(s.main.pending, Grid(cols, rows)) == 0
  {
    var erase, a := Write(Erase(mode)), Resized(s, cols, rows);
    EraseIsOneToken(s, mode);
    EraseIsOneToken(a, mode);
    assert [Resize(cols, rows), erase][1..] == [erase] && [erase][1..] == [];
    assert Run(s, [Resize(cols, rows), erase]) == Run(a, [erase]) == Feed(a, Erase(mode));
    assert Run(s, [erase]) == Feed(s, Erase(mode));
    if cols > 0 && rows > 0 {
      FlushKeepsFinished(Grid(cols, rows), s.main);
      EraseSeesDivision(a.main, s.main, mode);
    }
  }

  lemma EraseIsOneToken(s: Screen, mode: Byte)
    requires s.mode == Mode([], false) && s.main.obs.control == [] && Erasing(mode)
    ensures Feed(s, Erase(mode)) == Screen(s.mode, PutControl(s.main, Erase(mode)), s.grid)
  {
    var q := Erase(mode);
    assert Whole(q) by {
      assert q[..1] == [ESC] && q[..2] == [ESC, LBRACKET] && q[..3] == [ESC, LBRACKET, mode];
    }
    LexWhole(false, q);
    assert ModeParams(q) == [];
    assert Tokens(s.mode, q) == [Control(q)] && [Control(q)][1..] == [];
    assert PutAll(s.grid, s.main, [Control(q)]) == Put(s.grid, s.main, Control(q));
    ObserverIgnoresSequences(s.main.obs, q);
  }

  /** Two one-letter lines fed to a screen of two rows; at one row a resize evicts the first of them. */
  lemma TwoLinesTellSizesApart(mode: Byte)
    requires Erasing(mode)
    ensures var s := Feed(Fresh(Grid(80, 2)), [0x61, LF] + [0x61, LF]);
            !SameHistory(Run(s, [Resize(80, 1), Write(Erase(mode))]), Run(s, [Write(Erase(mode))]))
  {
    var s0 := Fresh(Grid(80, 2));
    var line := Line([0x61], [0x61]);
    TwoLinesOnOneRow(line);
    FeedConcat(s0, [0x61, LF], [0x61, LF]);
    OneLetterLine(s0, 0x61);
    OneLetterLine(Feed(s0, [0x61, LF]), 0x61);
    var s := Feed(s0, [0x61, LF] + [0x61, LF]);
    assert s.main.pending == [line, line];
    EraseSeesResize(s, 80, 1, mode);
  }

  /** Between lines, with nothing half-read. */
  ghost predicate AtLineStart(s: Screen) {
    s.mode == Mode([], false) && s.main.plain == [] && s.main.ansi == [] && !s.main.cr && s.main.obs.control == []
  }

  lemma OneLetterLine(s: Screen, b: Byte)
    requires AtLineStart(s) && b >= 0x20 && EvictCount(s.main.pending + [Line([b], [b])], s.grid) == 0
    ensures var r := Feed(s, [b, LF]);
            AtLineStart(r) && r.grid == s.grid && r.main.pending == s.main.pending + [Line([b], [b])]
  {
    assert [b, LF] == [b] + [LF];
    FeedConcat(s, [b], [LF]);
    FeedText(s, b);
    var t := Feed(s, [b]);
    assert t.main.plain == [] + [b] == [b] && t.main.ansi == [] + [b] == [b] && !t.main.cr;
    FeedText(t, LF);
    var n := s.main.pending + [Line([b], [b])];
    assert n[0..] == n && s.main.evicted + n[..0] == s.main.evicted;
  }

  lemma FeedText(s: Screen, b: Byte)
    requires s.mode == Mode([], false) && b != ESC && s.main.obs.control == []
    ensures Feed(s, [b]) == Screen(s.mode, PutByte(s.grid, s.main.(obs := ObserveByte(s.main.obs, b)), b), s.grid)
    ensures Feed(s, [b]).main.obs.control == []
  {
    assert [b][1..] == [];
    assert Observe(s.main.obs, [b]) == ObserveByte(s.main.obs, b);
    var t := Text(b);
    LexOne(s.mode, b);
    assert Tokens(s.mode, [b]) == [t] && [t][1..] == [];
    assert PutAll(s.grid, s.main, [t]) == Put(s.grid, s.main, t);
  }

  lemma TwoLinesOnOneRow(line: Line)
    requires line.plain == [0x61]
    ensures EvictCount([line, line], Grid(80, 1)) == 1
    ensures EvictCount([] + [line], Grid(80, 2)) == EvictCount([line] + [line], Grid(80, 2)) == 0
  {
    assert Decode([0x61]) == [0x61] by { AsciiEncodes([0x61]); DecodeEncode([0x61]); }
    assert [] + [line] == [line] && [line] + [line] == [line, line];
    assert [line, line][1..] == [line] && [line][1..] == [];
    assert RowsOf([line], 80) == 1 && RowsOf([line, line], 80) == 2;
    assert EvictCount([line], Grid(80, 1)) == 0;
  }

  // ---- The row budget ----

  /** Eviction stops as soon as the rest fits: it takes the oldest lines, and no line too many. */
  lemma {:induction false} EvictionIsLeast(lines: seq<Line>, g: Grid)
    ensures var k := EvictCount(lines, g);
            && (RowsOf(lines[k..], g.cols) <= g.rows || k == |lines|)
            && forall j | 0 <= j < k :: RowsOf(lines[j..], g.cols) > g.rows
  {
    var k := EvictCount(lines, g);
    if k > 0 {
      EvictionIsLeast(lines[1..], g);
      assert lines[1..][k - 1..] == lines[k..];
      forall j | 0 <= j < k
        ensures RowsOf(lines[j..], g.cols) > g.rows
      {
        if j > 0 { assert lines[1..][j - 1..] == lines[j..]; } else { assert lines[0..] == lines; }
      }
    } else {
      assert lines[0..] == lines;
    }
  }

  ghost predicate WithinBudget(m: Main, g: Grid) {
    RowsOf(m.pending, g.cols) <= g.rows
  }

  lemma FlushMeetsBudget(g: Grid, m: Main)
    requires g.rows >= 0
    ensures WithinBudget(Flush(g, m), g)
  {
    EvictionIsLeast(m.pending, g);
  }

  lemma {:induction false} PutAllKeepsBudget(g: Grid, m: Main, toks: seq<Token>)
    requires g.rows >= 0 && WithinBudget(m, g)
    ensures WithinBudget(PutAll(g, m, toks), g)
    decreases toks
  {
    if toks != [] {
      var t := toks[0];
      if t == Text(LF) {
        var m0 := m.(obs := Observe(m.obs, [LF]));
        var n := if m0.cr then m0.(cr := false, crAnsi := []) else m0;
        FlushMeetsBudget(g, n.(pending := n.pending + [Line(n.ansi, n.plain)], plain := [], ansi := []));
      }
      assert WithinBudget(Put(g, m, t), g);
      PutAllKeepsBudget(g, Put(g, m, t), toks[1..]);
    }
  }

  /** After every run the live screen's finished lines fit on it at its current size. */
  lemma {:induction false} RunsKeepBudget(s: Screen, evs: seq<Event>)
    requires s.grid.rows >= 0 && WithinBudget(s.main, s.grid)
    ensures var r := Run(s, evs); r.grid.rows >= 0 && WithinBudget(r.main, r.grid)
    decreases evs
  {
    if evs != [] {
      match evs[0] {
        case Write(p) =>
          PutAllKeepsBudget(s.grid, s.main, Tokens(s.mode, p));
          RunsKeepBudget(Feed(s, p), evs[1..]);
        case Resize(c, r) =>
          if c > 0 && r > 0 { FlushMeetsBudget(Grid(c, r), s.main); }
          RunsKeepBudget(Resized(s, c, r), evs[1..]);
      }
    }
  }
}
