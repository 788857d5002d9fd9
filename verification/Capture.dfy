/**
 What the capture parser makes of the tokens that reach the main screen: finished logical lines,
 the line still being written, and the plain-text observer that runs beside it.
 History is kept whole here; `VTScreen` keeps only its newest part.
 */
module Capture {
  import opened Bytes
  import opened Utf8
  import opened Ansi

  datatype Line = Line(ansi: seq<Byte>, plain: seq<Byte>)

  datatype Grid = Grid(cols: int, rows: int)

  /** The second parser: plain text only, empty lines dropped. */
  datatype Observed = Observed(lines: seq<seq<Byte>>, plain: seq<Byte>, control: seq<Byte>, cr: bool)

  /** evicted: the lines pushed out of the live screen; pending: finished lines still on it. */
  datatype Main = Main(evicted: seq<Line>, pending: seq<Line>,
                       plain: seq<Byte>, ansi: seq<Byte>,
                       cr: bool, crAnsi: seq<Byte>, obs: Observed)

  datatype Screen = Screen(mode: Mode, main: Main, grid: Grid)

  // ---- The observer ----

  function FinishObserved(o: Observed): Observed {
    o.(lines := if o.plain == [] then o.lines else o.lines + [o.plain], plain := [])
  }

  function ObserveByte(o: Observed, b: Byte): Observed {
    if o.control != [] then
      o.(control := if Complete(o.control + [b]) then [] else o.control + [b])
    else if b == ESC then o.(control := [ESC])
    else if o.cr && b == LF then FinishObserved(o.(cr := false))
    else if b == CR then o.(cr := true)
    else
      var n := if o.cr then o.(cr := false, plain := []) else o;
      if b == LF then FinishObserved(n)
      else if b == BS then n.(plain := TrimLastRune(n.plain))
      else if b == TAB || b >= 0x20 then n.(plain := n.plain + [b])
      else n
  }

  function Observe(o: Observed, p: seq<Byte>): Observed
    decreases p
  {
    if p == [] then o else Observe(ObserveByte(o, p[0]), p[1..])
  }

  // ---- Rows and eviction ----

  function WrappedLineCount(text: seq<Byte>, width: int): (n: nat)
    ensures n >= 1
  {
    if width <= 0 || Decode(text) == [] then 1
    else
      var runes := |Decode(text)|;
      assert (runes + width - 1) / width >= 1;
      (runes + width - 1) / width
  }

  function RowsOf(lines: seq<Line>, cols: int): nat {
    if lines == [] then 0 else WrappedLineCount(lines[0].plain, cols) + RowsOf(lines[1..], cols)
  }

  /** How many lines leave the live screen: the fewest that bring the rest within the row budget. */
  function EvictCount(lines: seq<Line>, g: Grid): (k: nat)
    ensures k <= |lines|
  {
    if RowsOf(lines, g.cols) > g.rows && lines != [] then 1 + EvictCount(lines[1..], g) else 0
  }

  function Flush(g: Grid, m: Main): Main {
    var k := EvictCount(m.pending, g);
    m.(evicted := m.evicted + m.pending[..k], pending := m.pending[k..])
  }

  // ---- The line discipline ----

  function FinishLine(g: Grid, m: Main): Main {
    Flush(g, m.(pending := m.pending + [Line(m.ansi, m.plain)], plain := [], ansi := []))
  }

  function ClearScreen(m: Main): Main {
    m.(pending := [], plain := [], ansi := [], cr := false, crAnsi := [],
       obs := m.obs.(lines := [], plain := [], cr := false))
  }

  /** A byte written where the cursor stands. */
  function PutPlain(g: Grid, m: Main, b: Byte): Main {
    if b == LF then FinishLine(g, m)
    else if b == BS then m.(plain := TrimLastRune(m.plain), ansi := TrimLastRune(m.ansi))
    else if b == TAB || b >= 0x20 then m.(plain := m.plain + [b], ansi := m.ansi + [b])
    else m
  }

  /** A carriage return is held until the next byte: part of the line break, or the line starts over. */
  function PutByte(g: Grid, m: Main, b: Byte): Main {
    if b == CR then m.(cr := true, crAnsi := [])
    else if !m.cr then PutPlain(g, m, b)
    else if b == LF then FinishLine(g, m.(cr := false, crAnsi := []))
    else PutPlain(g, m.(cr := false, plain := [], ansi := m.crAnsi, crAnsi := []), b)
  }

  function PutControl(m: Main, q: seq<Byte>): Main {
    if m.cr && IsSGR(q) then m.(crAnsi := m.crAnsi + q)
    else
      var n := if m.cr then m.(cr := false, plain := [], ansi := [], crAnsi := []) else m;
      if IsSGR(q) then n.(ansi := n.ansi + q)
      else if IsEraseDisplay(q, '2' as Byte) then ClearScreen(n)
      else if IsEraseDisplay(q, '3' as Byte) then n.(evicted := [], obs := n.obs.(lines := []))
      else if IsRIS(q) then ClearScreen(n.(evicted := []))
      else n
  }

  function Put(g: Grid, m: Main, t: Token): Main {
    match t
    case Text(b) => PutByte(g, m.(obs := Observe(m.obs, [b])), b)
    case Control(q) => PutControl(m.(obs := Observe(m.obs, q)), q)
  }

  function PutAll(g: Grid, m: Main, toks: seq<Token>): Main
    decreases toks
  {
    if toks == [] then m else PutAll(g, Put(g, m, toks[0]), toks[1..])
  }

  // ---- The whole screen ----

  function Feed(s: Screen, p: seq<Byte>): Screen {
    Screen(ModeAfter(s.mode, p), PutAll(s.grid, s.main, Tokens(s.mode, p)), s.grid)
  }

  function Resized(s: Screen, cols: int, rows: int): Screen {
    if cols <= 0 || rows <= 0 then s
    else Screen(s.mode, Flush(Grid(cols, rows), s.main), Grid(cols, rows))
  }

  function Fresh(g: Grid): Screen {
    Screen(Mode([], false), Main([], [], [], [], false, [], Observed([], [], [], false)), g)
  }

  lemma {:induction false} PutAllConcat(g: Grid, m: Main, x: seq<Token>, y: seq<Token>)
    ensures PutAll(g, m, x + y) == PutAll(g, PutAll(g, m, x), y)
    decreases x
  {
    hide Put;
    if x == [] {
      assert x + y == y;
    } else {
      var first, later := x[0], x[1..];
      PutAllConcat(g, Put(g, m, first), later, y);
      assert x + y == [first] + (later + y);
      FirstOff(first, later + y);
    }
  }

  /** A read boundary anywhere in the stream changes nothing. */
  lemma FeedConcat(s: Screen, p: seq<Byte>, q: seq<Byte>)
    ensures Feed(s, p + q) == Feed(Feed(s, p), q)
  {
    LexConcat(s.mode, p, q);
    PutAllConcat(s.grid, s.main, Tokens(s.mode, p), Tokens(ModeAfter(s.mode, p), q));
  }

  function FeedAll(s: Screen, chunks: seq<seq<Byte>>): Screen
    decreases chunks
  {
    if chunks == [] then s else FeedAll(Feed(s, chunks[0]), chunks[1..])
  }

  /** However the stream is cut into reads, the captured state is that of one read. */
  lemma {:induction false} ChunkingIsInvisible(s: Screen, chunks: seq<seq<Byte>>)
    ensures FeedAll(s, chunks) == Feed(s, Flatten(chunks))
    decreases chunks
  {
    if chunks != [] {
      ChunkingIsInvisible(Feed(s, chunks[0]), chunks[1..]);
      FeedConcat(s, chunks[0], Flatten(chunks[1..]));
    }
  }
}
