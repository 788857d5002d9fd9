/**
 The capture half of a virtual terminal screen: the fields that a write updates byte by byte, proved
 against the description in `Capture`. The emulator that paints the cells is not part of this model.
 */
module VTScreen {
  import opened Bytes
  import opened Utf8
  import opened Ansi
  import opened Capture
  import ByteRing

  const MAX_SCROLLBACK_LINES := 10000
  const MAX_OBSERVED_LINES := 256

  class VTScreen {
    var cols: int
    var rows: int
    const rawHistory: ByteRing.Ring

    var logicalScrollback: seq<Line>
    var pendingLines: seq<Line>
    var pendingRows: int
    var linePlain: seq<Byte>
    var lineANSI: seq<Byte>
    var pendingControl: seq<Byte>
    var captureAltScreen: bool
    var pendingCR: bool
    var pendingCRANSI: seq<Byte>
    var observedLines: seq<seq<Byte>>
    var observedPlain: seq<Byte>
    var observedControl: seq<Byte>
    var observedCR: bool

    // The history before the two caps.
    ghost var evicted: seq<Line>
    ghost var observed: seq<seq<Byte>>

    /** The row counter is the sum of the wrapped lines, and the capped lists are the newest of their history. */
    ghost predicate Valid()
      reads this
    {
      && pendingRows == RowsOf(pendingLines, cols)
      && logicalScrollback == Tail(evicted, MAX_SCROLLBACK_LINES)
      && observedLines == Tail(observed, MAX_OBSERVED_LINES)
    }

    ghost function Observer(): Observed
      reads this
    {
      Observed(observed, observedPlain, observedControl, observedCR)
    }

    ghost function Lines(): Main
      reads this
    {
      Main(evicted, pendingLines, linePlain, lineANSI, pendingCR, pendingCRANSI, Observer())
    }

    ghost function Model(): Screen
      reads this
    {
      Screen(Mode(pendingControl, captureAltScreen), Lines(), Grid(cols, rows))
    }

    constructor (cols: int, rows: int)
      ensures Valid() && Model() == Fresh(Grid(cols, rows))
      ensures rawHistory.Valid() && fresh(rawHistory) && fresh(rawHistory.buf) && rawHistory.Contents() == []
    {
      this.cols, this.rows := cols, rows;
      rawHistory := new ByteRing.Ring();
      logicalScrollback, pendingLines, pendingRows := [], [], 0;
      linePlain, lineANSI, pendingControl, captureAltScreen := [], [], [], false;
      pendingCR, pendingCRANSI := false, [];
      observedLines, observedPlain, observedControl, observedCR := [], [], [], false;
      evicted, observed := [], [];
    }

    // ---- The observer ----

    method FinishObservedLine()
      requires Valid()
      modifies this`observedLines, this`observedPlain, this`observed
      ensures Valid() && Observer() == FinishObserved(old(Observer()))
    {
      if observedPlain != [] {
        TailOfTail(observed, [observedPlain], MAX_OBSERVED_LINES);
        observedLines := observedLines + [observedPlain];
        var overflow := |observedLines| - MAX_OBSERVED_LINES;
        if overflow > 0 {
          observedLines := observedLines[overflow..];
        }
        observed := observed + [observedPlain];
      }
      observedPlain := [];
    }

    method CaptureObservedByte(b: Byte)
      requires Valid()
      modifies this`observedLines, this`observedPlain, this`observed, this`observedControl, this`observedCR
      ensures Valid() && Observer() == ObserveByte(old(Observer()), b)
    {
      if |observedControl| > 0 {
        observedControl := observedControl + [b];
        if Complete(observedControl) {
          observedControl := [];
        }
        return;
      }
      if observedCR {
        if b == LF {
          observedCR := false;
          FinishObservedLine();
          return;
        } else if b == CR {
          return;
        } else if b == ESC {
          observedControl := [b];
          return;
        }
        observedCR := false;
        observedPlain := [];
      }
      if b == ESC {
        observedControl := [b];
      } else if b == CR {
        observedCR := true;
      } else if b == LF {
        FinishObservedLine();
      } else if b == BS {
        observedPlain := TrimLastRune(observedPlain);
      } else if b == TAB {
        observedPlain := observedPlain + [TAB];
      } else if b >= 0x20 || b >= 0x80 {
        observedPlain := observedPlain + [b];
      }
    }

    method CaptureObservedLines(p: seq<Byte>)
      requires Valid()
      modifies this`observedLines, this`observedPlain, this`observed, this`observedControl, this`observedCR
      ensures Valid() && Observer() == Observe(old(Observer()), p)
    {
      for i := 0 to |p|
        invariant Valid()
        invariant Observe(Observer(), p[i..]) == Observe(old(Observer()), p)
      {
        assert p[i..][1..] == p[i + 1..];
        CaptureObservedByte(p[i]);
      }
      assert p[|p|..] == [];
    }

    // ---- Lines and eviction ----

    method AppendLogicalScrollback(line: Line)
      requires Valid()
      modifies this`logicalScrollback, this`evicted
      ensures Valid() && evicted == old(evicted) + [line]
    {
      TailOfTail(evicted, [line], MAX_SCROLLBACK_LINES);
      logicalScrollback := logicalScrollback + [line];
      var overflow := |logicalScrollback| - MAX_SCROLLBACK_LINES;
      if overflow > 0 {
        logicalScrollback := logicalScrollback[overflow..];
      }
      evicted := evicted + [line];
    }

    method FlushPendingLogicalLines()
      requires Valid()
      modifies this`logicalScrollback, this`evicted, this`pendingLines, this`pendingRows
      ensures Valid() && Lines() == Flush(Grid(cols, rows), old(Lines()))
    {
      while pendingRows > rows && |pendingLines| > 0
        invariant Valid()
        invariant Flush(Grid(cols, rows), Lines()) == Flush(Grid(cols, rows), old(Lines()))
        decreases |pendingLines|
      {
        FlushStep(Grid(cols, rows), Lines());
        var line := pendingLines[0];
        AppendLogicalScrollback(line);
        pendingLines := pendingLines[1..];
        pendingRows := pendingRows - WrappedLineCount(line.plain, cols);
      }
      FlushStep(Grid(cols, rows), Lines());
    }

    method FinishLogicalLine()
      requires Valid()
      modifies this`logicalScrollback, this`evicted, this`pendingLines, this`pendingRows, this`linePlain, this`lineANSI
      ensures Valid() && Lines() == FinishLine(Grid(cols, rows), old(Lines()))
    {
      var line := Line(lineANSI, linePlain);
      RowsOfSnoc(pendingLines, line, cols);
      pendingLines := pendingLines + [line];
      pendingRows := pendingRows + WrappedLineCount(line.plain, cols);
      linePlain := [];
      lineANSI := [];
      assert Lines() == old(Lines()).(pending := pendingLines, plain := [], ansi := []);
      FlushPendingLogicalLines();
    }

    method RecalcPendingRows()
      modifies this`pendingRows
      ensures pendingRows == RowsOf(pendingLines, cols)
    {
      pendingRows := 0;
      for i := 0 to |pendingLines|
        invariant pendingRows == RowsOf(pendingLines[..i], cols)
      {
        RowsOfSnoc(pendingLines[..i], pendingLines[i], cols);
        assert pendingLines[..i + 1] == pendingLines[..i] + [pendingLines[i]];
        pendingRows := pendingRows + WrappedLineCount(pendingLines[i].plain, cols);
      }
      assert pendingLines[..|pendingLines|] == pendingLines;
    }

    method ClearLogicalScreen()
      requires Valid()
      modifies this`pendingLines, this`pendingRows, this`linePlain, this`lineANSI, this`pendingCR, this`pendingCRANSI
      modifies this`observedLines, this`observed, this`observedPlain, this`observedCR
      ensures Valid() && Lines() == ClearScreen(old(Lines()))
    {
      pendingLines := [];
      pendingRows := 0;
      StartLineOver();
      ForgetObserved();
    }

    /** The line being written is dropped, with a carriage return held behind it. */
    method StartLineOver()
      requires Valid()
      modifies this`pendingCR, this`pendingCRANSI, this`linePlain, this`lineANSI
      ensures Valid() && Lines() == old(Lines()).(cr := false, plain := [], ansi := [], crAnsi := [])
    {
      pendingCR := false;
      pendingCRANSI := [];
      linePlain := [];
      lineANSI := [];
    }

    /** The last three resets of ClearLogicalScreen. */
    method ForgetObserved()
      requires Valid()
      modifies this`observedLines, this`observed, this`observedPlain, this`observedCR
      ensures Valid() && Observer() == old(Observer()).(lines := [], plain := [], cr := false)
    {
      observedLines, observed := [], [];
      observedPlain := [];
      observedCR := false;
    }

    // ---- Control sequences ----

    method CaptureScreenSwitch(q: seq<Byte>) returns (switched: bool)
      modifies this`captureAltScreen
      ensures switched == SwitchOf(q).Some?
      ensures captureAltScreen ==
              if IsRIS(q) then false else if switched then SwitchOf(q).value else old(captureAltScreen)
    {
      if IsRIS(q) {
        RisIsNoSwitch(q);
        captureAltScreen := false;
        return false;
      }
      var params := ModeParams(q);
      if params == [] {
        return false;
      }
      var final := q[|q| - 1];
      switched := false;
      for i := 0 to |params|
        invariant switched == exists j | 0 <= j < i :: IsAltMode(params[j])
        invariant captureAltScreen == if switched then final == 'h' as Byte else old(captureAltScreen)
      {
        if IsAltMode(params[i]) {
          captureAltScreen := final == 'h' as Byte;
          switched := true;
        }
      }
    }

    method CaptureControlSequence(q: seq<Byte>)
      requires Valid() && !pendingCR
      modifies this
      ensures Valid() && Lines() == PutControl(old(Lines()), q)
      ensures unchanged(this`cols, this`rows, this`pendingControl, this`captureAltScreen)
    {
      if IsSGR(q) {
        lineANSI := lineANSI + q;
      } else if IsEraseDisplay(q, '2' as Byte) {
        ClearLogicalScreen();
      } else if IsEraseDisplay(q, '3' as Byte) {
        logicalScrollback, evicted := [], [];
        observedLines, observed := [], [];
      } else if IsRIS(q) {
        logicalScrollback, evicted := [], [];
        ClearLogicalScreen();
      }
    }

    /** A finished sequence on the main screen. */
    method CaptureSequence(q: seq<Byte>)
      requires Valid()
      modifies this
      ensures Valid()
      ensures Lines() == Put(old(Model()).grid, old(Lines()), Control(q))
      ensures unchanged(this`cols, this`rows, this`pendingControl, this`captureAltScreen)
    {
      CaptureObservedLines(q);
      if pendingCR && IsSGR(q) {
        pendingCRANSI := pendingCRANSI + q;
      } else {
        if pendingCR {
          StartLineOver();
        }
        CaptureControlSequence(q);
      }
    }

    // ---- The parser ----

    /** A byte with no carriage return before it. */
    method CapturePlainByte(b: Byte)
      requires Valid() && !pendingCR && b != ESC
      modifies this`logicalScrollback, this`evicted, this`pendingLines, this`pendingRows
      modifies this`linePlain, this`lineANSI, this`pendingCR, this`pendingCRANSI
      ensures Valid() && Lines() == PutByte(Grid(cols, rows), old(Lines()), b)
    {
      if b == CR {
        pendingCR := true;
        pendingCRANSI := [];
      } else if b == LF {
        FinishLogicalLine();
      } else if b == BS {
        linePlain := TrimLastRune(linePlain);
        lineANSI := TrimLastRune(lineANSI);
      } else if b == TAB {
        linePlain := linePlain + [TAB];
        lineANSI := lineANSI + [TAB];
      } else if b >= 0x20 || b >= 0x80 {
        linePlain := linePlain + [b];
        lineANSI := lineANSI + [b];
      }
    }

    /** A byte after which a held-back carriage return, if any, is resolved. */
    method CaptureLineByte(b: Byte)
      requires Valid() && b != ESC
      modifies this`logicalScrollback, this`evicted, this`pendingLines, this`pendingRows
      modifies this`linePlain, this`lineANSI, this`pendingCR, this`pendingCRANSI
      ensures Valid() && Lines() == PutByte(Grid(cols, rows), old(Lines()), b)
    {
      if pendingCR {
        if b == LF {
          pendingCR := false;
          pendingCRANSI := [];
          FinishLogicalLine();
          return;
        } else if b == CR {
          pendingCRANSI := [];
          return;
        }
        pendingCR := false;
        linePlain := [];
        lineANSI := pendingCRANSI;
        pendingCRANSI := [];
      }
      CapturePlainByte(b);
    }

    /** A byte of the main screen outside any sequence. */
    method CaptureText(b: Byte)
      requires Valid() && b != ESC
      modifies this
      ensures Valid()
      ensures Lines() == Put(old(Model()).grid, old(Lines()), Text(b))
      ensures unchanged(this`cols, this`rows, this`pendingControl, this`captureAltScreen)
    {
      CaptureObservedLines([b]);
      CaptureLineByte(b);
    }

    method CaptureByte(b: Byte)
      requires Valid()
      modifies this
      ensures Valid()
      ensures Model() == Feed(old(Model()), [b])
    {
      ghost var s := Model();
      FeedByte(s, b);
      if |pendingControl| > 0 {
        pendingControl := pendingControl + [b];
        if Complete(pendingControl) {
          var switched := CaptureScreenSwitch(pendingControl);
          if switched || captureAltScreen {
            pendingControl := [];
            return;
          }
          CaptureSequence(pendingControl);
          pendingControl := [];
        }
        return;
      }
      if captureAltScreen {
        if b == ESC {
          pendingControl := pendingControl + [b];
        }
        return;
      }
      if b == ESC {
        pendingControl := [b];
        return;
      }
      CaptureText(b);
    }

    method CaptureLogicalLines(p: seq<Byte>)
      requires Valid()
      modifies this
      ensures Valid()
      ensures Model() == Feed(old(Model()), p)
    {
      for i := 0 to |p|
        invariant Valid()
        invariant Feed(Model(), p[i..]) == Feed(old(Model()), p)
      {
        assert p[i..] == [p[i]] + p[i + 1..];
        FeedConcat(Model(), [p[i]], p[i + 1..]);
        CaptureByte(p[i]);
      }
      assert p[|p|..] == [];
    }

    // ---- The two entry points ----

    /** A read from the child process: kept raw for replay and captured as lines. */
    method Write(p: seq<Byte>)
      requires Valid() && rawHistory.Valid()
      modifies this, rawHistory, rawHistory.buf
      ensures Valid() && rawHistory.Valid()
      ensures rawHistory.buf == old(rawHistory.buf) || fresh(rawHistory.buf)
      ensures rawHistory.Contents() == Tail(old(rawHistory.Contents()) + p, ByteRing.MAX_SCROLLBACK)
      ensures Model() == Feed(old(Model()), p)
      ensures logicalScrollback == Tail(Model().main.evicted, 10000)
      ensures observedLines == Tail(Model().main.obs.lines, 256)
    {
      rawHistory.Append(p);
      CaptureLogicalLines(p);
    }

    method Resize(cols: int, rows: int)
      requires Valid()
      modifies this
      ensures Valid() && Model() == Resized(old(Model()), cols, rows)
    {
      if cols <= 0 || rows <= 0 {
        return;
      }
      this.cols := cols;
      this.rows := rows;
      RecalcPendingRows();
      FlushPendingLogicalLines();
    }
  }

  /** Flushing takes the oldest line while the rest is over budget. */
  lemma FlushStep(g: Grid, m: Main)
    ensures Flush(g, m) ==
            if RowsOf(m.pending, g.cols) > g.rows && m.pending != []
            then Flush(g, m.(evicted := m.evicted + [m.pending[0]], pending := m.pending[1..]))
            else m
  {
  }

  lemma {:induction false} RowsOfSnoc(lines: seq<Line>, line: Line, cols: int)
    ensures RowsOf(lines + [line], cols) == RowsOf(lines, cols) + WrappedLineCount(line.plain, cols)
  {
    if lines == [] {
      assert [line][1..] == [];
    } else {
      RowsOfSnoc(lines[1..], line, cols);
      assert (lines + [line])[1..] == lines[1..] + [line];
    }
  }

  lemma FeedByte(s: Screen, b: Byte)
    ensures var r := LexByte(s.mode, b); Feed(s, [b]) == Screen(r.0, PutAll(s.grid, s.main, r.1), s.grid)
    ensures forall t :: PutAll(s.grid, s.main, [t]) == Put(s.grid, s.main, t)
  {
    assert [b][1..] == [];
    assert ModeAfter(s.mode, [b]) == LexByte(s.mode, b).0;
    assert Tokens(s.mode, [b]) == LexByte(s.mode, b).1 + [] == LexByte(s.mode, b).1;
    forall t: Token
      ensures PutAll(s.grid, s.main, [t]) == Put(s.grid, s.main, t)
    {
      assert [t][1..] == [];
    }
  }
}
