/** Recovering soft-wrap flags for painted rows from the logical lines behind them. */
module WrapMetadata {
  import opened Bytes

  const SPACE: Byte := 0x20

  datatype BufferLine = BufferLine(text: seq<Byte>, softWrap: bool, wrapKnown: bool)

  function TrimRight(s: seq<Byte>): seq<Byte> {
    if s != [] && s[|s| - 1] == SPACE then TrimRight(s[..|s| - 1]) else s
  }

  function Spaces(n: nat): seq<Byte> {
    seq(n, _ => SPACE)
  }

  /** y is x with nothing but spaces added at its end. */
  ghost predicate Padded(x: seq<Byte>, y: seq<Byte>) {
    exists n: nat :: y == x + Spaces(n)
  }

  lemma {:induction false} TrimThenSpaces(s: seq<Byte>)
    ensures |TrimRight(s)| <= |s| && TrimRight(s) + Spaces(|s| - |TrimRight(s)|) == s
  {
    if s != [] && s[|s| - 1] == SPACE {
      TrimThenSpaces(s[..|s| - 1]);
      assert s == s[..|s| - 1] + [SPACE];
    }
  }

  /** Only spaces are trimmed, and all of them at the end. */
  lemma TrimmedIs(s: seq<Byte>)
    ensures Padded(TrimRight(s), s) && (TrimRight(s) != [] ==> TrimRight(s)[|TrimRight(s)| - 1] != 0x20)
  {
    TrimThenSpaces(s);
    LastIsKept(s);
  }

  lemma {:induction false} LastIsKept(s: seq<Byte>)
    ensures TrimRight(s) <= s && (TrimRight(s) != [] ==> TrimRight(s)[|TrimRight(s)| - 1] != 0x20)
  {
    if s != [] && s[|s| - 1] == SPACE { LastIsKept(s[..|s| - 1]); }
  }

  // ---- The longest matching run ----

  /** Row vi + k is painted as logical row li + k, trailing spaces aside. */
  predicate RowsMatch(visible: seq<BufferLine>, logical: seq<BufferLine>, vi: nat, li: nat, k: nat)
    requires vi + k < |visible| && li + k < |logical|
  {
    visible[vi + k].text == TrimRight(logical[li + k].text)
  }

  /** n painted rows from vi on show the n logical rows from li on. */
  ghost predicate IsRun(visible: seq<BufferLine>, logical: seq<BufferLine>, vi: nat, li: nat, n: nat) {
    vi + n <= |visible| && li + n <= |logical| &&
    forall k | 0 <= k < n :: RowsMatch(visible, logical, vi, li, k)
  }

  /** No pair of starts has a longer run. */
  ghost predicate IsLongest(visible: seq<BufferLine>, logical: seq<BufferLine>, n: nat) {
    forall vi: nat, li: nat, m: nat | IsRun(visible, logical, vi, li, m) && m > 0 :: m <= n
  }

  method RunLength(visible: seq<BufferLine>, logical: seq<BufferLine>, vi: nat, li: nat) returns (n: nat)
    requires vi < |visible| && li < |logical|
    ensures IsRun(visible, logical, vi, li, n)
    ensures forall m: nat | IsRun(visible, logical, vi, li, m) :: m <= n
  {
    n := 0;
    while vi + n < |visible| && li + n < |logical| && visible[vi + n].text == TrimRight(logical[li + n].text)
      invariant IsRun(visible, logical, vi, li, n)
      decreases |visible| - n
    {
      assert RowsMatch(visible, logical, vi, li, n);
      n := n + 1;
    }
    assert vi + n < |visible| && li + n < |logical| ==> !RowsMatch(visible, logical, vi, li, n);
  }

  method LongestRun(visible: seq<BufferLine>, logical: seq<BufferLine>) returns (bestV: nat, bestL: nat, bestLen: nat)
    ensures IsRun(visible, logical, bestV, bestL, bestLen)
    ensures IsLongest(visible, logical, bestLen)
  {
    bestV, bestL, bestLen := 0, 0, 0;
    for vi := 0 to |visible|
      invariant IsRun(visible, logical, bestV, bestL, bestLen)
      invariant forall v: nat, l: nat, m: nat | v < vi && IsRun(visible, logical, v, l, m) && m > 0 :: m <= bestLen
    {
      for li := 0 to |logical|
        invariant IsRun(visible, logical, bestV, bestL, bestLen)
        invariant forall v: nat, l: nat, m: nat |
          (v < vi || (v == vi && l < li)) && IsRun(visible, logical, v, l, m) && m > 0 :: m <= bestLen
      {
        var n := RunLength(visible, logical, vi, li);
        if n > bestLen {
          bestV, bestL, bestLen := vi, li, n;
        }
      }
    }
  }

  /** When the screen shows logical rows from li on and nothing else, the whole screen is the longest run. */
  lemma WholeScreenIsLongest(visible: seq<BufferLine>, logical: seq<BufferLine>, li: nat, at: nat, from: nat, n: nat)
    requires visible != [] && li + |visible| <= |logical|
    requires forall k | 0 <= k < |visible| :: visible[k].text == TrimRight(logical[li + k].text)
    requires IsRun(visible, logical, at, from, n) && IsLongest(visible, logical, n)
    ensures n == |visible| && at == 0 && from + n <= |logical|
    ensures forall k | 0 <= k < n :: visible[k].text == TrimRight(logical[from + k].text)
  {
    forall k | 0 <= k < |visible|
      ensures RowsMatch(visible, logical, 0, li, k)
    {
    }
    assert IsRun(visible, logical, 0, li, |visible|);
    forall k | 0 <= k < n
      ensures visible[k].text == TrimRight(logical[from + k].text)
    {
      assert RowsMatch(visible, logical, at, from, k);
    }
  }

  // ---- The two passes ----

  /** The rows of the chosen run take over text and flag of their logical rows; the others keep theirs. */
  method ApplyMatchingWrapMetadata(visible: array<BufferLine>, logical: seq<BufferLine>)
    returns (ghost at: nat, ghost from: nat, ghost n: nat)
    modifies visible
    ensures IsRun(old(visible[..]), logical, at, from, n) && IsLongest(old(visible[..]), logical, n)
    ensures forall i | 0 <= i < visible.Length ::
      if at <= i < at + n
      then visible[i].text == logical[from + (i - at)].text && visible[i].softWrap == logical[from + (i - at)].softWrap
           && visible[i].wrapKnown
      else visible[i] == old(visible[i])
    ensures forall i | 0 <= i < visible.Length :: Padded(old(visible[i]).text, visible[i].text)
  {
    ghost var painted := visible[..];
    var bestV, bestL, bestLen := LongestRun(visible[..], logical);
    for i := 0 to bestLen
      invariant forall k | 0 <= k < visible.Length ::
        visible[k] == if bestV <= k < bestV + i then logical[bestL + (k - bestV)].(wrapKnown := true) else painted[k]
    {
      var line := logical[bestL + i];
      var row := visible[bestV + i];
      assert RowsMatch(painted, logical, bestV, bestL, i);
      TrimThenSpaces(line.text);
      var trimmed := TrimRight(line.text);
      row := row.(softWrap := line.softWrap, wrapKnown := true);
      var trailing := |line.text| - |trimmed|;
      if trailing > 0 {
        row := row.(text := row.text + Spaces(trailing));
      }
      assert trimmed + Spaces(0) == trimmed;
      visible[bestV + i] := row;
    }
    at, from, n := bestV, bestL, bestLen;
    forall i | 0 <= i < visible.Length
      ensures Padded(painted[i].text, visible[i].text)
    {
      if at <= i < at + n {
        assert RowsMatch(painted, logical, at, from, i - at);
        TrimThenSpaces(logical[from + (i - at)].text);
      } else {
        assert painted[i].text + Spaces(0) == painted[i].text;
      }
    }
  }

  predicate OccursAt(s: seq<Byte>, sub: seq<Byte>, i: nat) {
    i + |sub| <= |s| && s[i..i + |sub|] == sub
  }

  predicate Contains(s: seq<Byte>, sub: seq<Byte>) {
    exists i | 0 <= i <= |s| :: OccursAt(s, sub, i)
  }

  /** Row i filled up to the width and continued by row i + 1. */
  function JoinedAt(rows: seq<BufferLine>, i: nat, pad: nat): seq<Byte>
    requires i + 1 < |rows|
  {
    rows[i].text + Spaces(pad) + rows[i + 1].text
  }

  /** Whether some logical source holds two adjacent rows as one stretch; cells measures a text in columns. */
  predicate Adjacent(rows: seq<BufferLine>, sources: seq<seq<Byte>>, width: int, cells: seq<Byte> -> nat, i: nat)
    requires i < |rows|
  {
    && i + 1 < |rows| && !rows[i].wrapKnown && rows[i].text != [] && rows[i + 1].text != []
    && width - cells(rows[i].text) > 0
    && exists k | 0 <= k < |sources| :: Contains(sources[k], JoinedAt(rows, i, width - cells(rows[i].text)))
  }

  /** Each row as the pass leaves it, decided from the rows before the pass. */
  function AfterAdjacent(rows: seq<BufferLine>, sources: seq<seq<Byte>>, width: int, cells: seq<Byte> -> nat,
                         i: nat): BufferLine
    requires i < |rows|
  {
    if width > 0 && Adjacent(rows, sources, width, cells, i)
    then BufferLine(rows[i].text + Spaces(width - cells(rows[i].text)), true, true)
    else rows[i]
  }

  method ApplyAdjacentWrapMetadata(visible: array<BufferLine>, sources: seq<seq<Byte>>, width: int,
                                   cells: seq<Byte> -> nat)
    modifies visible
    ensures forall i | 0 <= i < visible.Length ::
      visible[i] == AfterAdjacent(old(visible[..]), sources, width, cells, i)
  {
    ghost var rows := visible[..];
    if width <= 0 {
      return;
    }
    var i := 0;
    while i + 1 < visible.Length
      invariant 0 <= i <= visible.Length
      invariant forall k | 0 <= k < visible.Length ::
        visible[k] == if k < i then AfterAdjacent(rows, sources, width, cells, k) else rows[k]
      decreases visible.Length - i
    {
      if visible[i].wrapKnown || visible[i].text == [] || visible[i + 1].text == [] {
        i := i + 1;
        continue;
      }
      var padding := width - cells(visible[i].text);
      if padding <= 0 {
        i := i + 1;
        continue;
      }
      var joined := visible[i].text + Spaces(padding) + visible[i + 1].text;
      assert joined == JoinedAt(rows, i, padding);
      var found := exists k | 0 <= k < |sources| :: Contains(sources[k], joined);
      if found {
        visible[i] := BufferLine(visible[i].text + Spaces(padding), true, true);
      }
      i := i + 1;
    }
  }

  /**
   A source cut at the width: where the first row was painted without its trailing spaces, and some
   source holds the whole row with the next one behind it, the pass gives the row back as it was.
   */
  lemma CutSourceIsRecovered(rows: seq<BufferLine>, sources: seq<seq<Byte>>, width: int, cells: seq<Byte> -> nat,
                             i: nat, row: seq<Byte>, before: seq<Byte>, after: seq<Byte>)
    requires i + 1 < |rows| && rows[i].text == TrimRight(row) && !rows[i].wrapKnown
    requires TrimRight(row) != [] && rows[i + 1].text != []
    requires before + (row + rows[i + 1].text) + after in sources
    requires cells(TrimRight(row)) + (|row| - |TrimRight(row)|) == width && cells(TrimRight(row)) < width
    ensures AfterAdjacent(rows, sources, width, cells, i) == BufferLine(row, true, true)
  {
    TrimThenSpaces(row);
    var source, next := before + (row + rows[i + 1].text) + after, rows[i + 1].text;
    var pad: nat := width - cells(TrimRight(row));
    assert JoinedAt(rows, i, pad) == row + next;
    assert source[|before|..|before| + |row + next|] == row + next;
    assert OccursAt(source, row + next, |before|);
    assert Contains(source, JoinedAt(rows, i, pad));
    var k :| 0 <= k < |sources| && sources[k] == source;
  }

  /** sub stands somewhere in s. */
  ghost predicate Holds(s: seq<Byte>, sub: seq<Byte>) {
    exists before, after :: s == before + sub + after
  }

  lemma ContainsIs(s: seq<Byte>, sub: seq<Byte>)
    ensures Contains(s, sub) <==> Holds(s, sub)
  {
    if i :| 0 <= i <= |s| && OccursAt(s, sub, i) {
      assert s == s[..i] + sub + s[i + |sub|..];
    }
    if before, after :| s == before + sub + after {
      assert OccursAt(s, sub, |before|);
    }
  }

  /** A row is left alone if its wrapping is known, nothing is painted on it or below it, it is full, or no source holds both. */
  lemma OthersStay(rows: seq<BufferLine>, sources: seq<seq<Byte>>, width: int, cells: seq<Byte> -> nat, i: nat)
    requires i < |rows|
    requires i + 1 == |rows| || rows[i].wrapKnown || rows[i].text == [] || rows[i + 1].text == []
             || cells(rows[i].text) >= width
             || forall source | source in sources ::
                  !Holds(source, rows[i].text + Spaces(width - cells(rows[i].text)) + rows[i + 1].text)
    ensures AfterAdjacent(rows, sources, width, cells, i) == rows[i]
  {
    if i + 1 < |rows| && cells(rows[i].text) < width {
      var joined := JoinedAt(rows, i, width - cells(rows[i].text));
      forall source | source in sources
        ensures Contains(source, joined) <==> Holds(source, joined)
      {
        ContainsIs(source, joined);
      }
    }
  }

  lemma PaddedTwice(x: seq<Byte>, y: seq<Byte>, z: seq<Byte>)
    requires Padded(x, y) && Padded(y, z)
    ensures Padded(x, z)
  {
    var m: nat :| y == x + Spaces(m);
    var n: nat :| z == y + Spaces(n);
    assert z == x + Spaces(m + n);
  }

  /** A row of unknown wrapping that fills its width, with a row below, counts as wrapped. */
  function Marked(rows: seq<BufferLine>, width: int, cells: seq<Byte> -> nat, i: nat): BufferLine
    requires i < |rows|
  {
    if i + 1 < |rows| && !rows[i].wrapKnown && cells(rows[i].text) >= width then rows[i].(softWrap := true) else rows[i]
  }

  method MarkFullRows(visible: array<BufferLine>, width: int, cells: seq<Byte> -> nat)
    modifies visible
    ensures forall i | 0 <= i < visible.Length :: visible[i] == Marked(old(visible[..]), width, cells, i)
    ensures forall i | 0 <= i < visible.Length ::
      && visible[i].text == old(visible[i]).text && visible[i].wrapKnown == old(visible[i]).wrapKnown
      && visible[i].softWrap == (old(visible[i]).softWrap ||
            (i < visible.Length - 1 && !visible[i].wrapKnown && cells(visible[i].text) >= width))
  {
    ghost var rows := visible[..];
    var i := 0;
    while i + 1 < visible.Length
      invariant 0 <= i <= visible.Length
      invariant forall k | 0 <= k < visible.Length ::
        visible[k] == if k < i then Marked(rows, width, cells, k) else rows[k]
      decreases visible.Length - i
    {
      if !visible[i].wrapKnown && cells(visible[i].text) >= width {
        visible[i] := visible[i].(softWrap := true);
      }
      i := i + 1;
    }
  }

  /**
   The two passes and the marking in turn: as many rows as were painted, each the painted row plus
   trailing spaces. A row changed by a pass has known wrapping; any other keeps its text, and its flag
   unless it fills its width.
   */
  method ApplyWrapMetadata(visible: array<BufferLine>, logical: seq<BufferLine>, sources: seq<seq<Byte>>,
                           width: int, cells: seq<Byte> -> nat)
    modifies visible
    ensures forall i | 0 <= i < visible.Length ::
      && Padded(old(visible[i]).text, visible[i].text)
      && (old(visible[i]).wrapKnown ==> visible[i].wrapKnown)
      && (!visible[i].wrapKnown ==> visible[i] == Marked(old(visible[..]), width, cells, i))
  {
    ghost var painted := visible[..];
    ghost var at, from, n := ApplyMatchingWrapMetadata(visible, logical);
    ghost var mid := visible[..];
    ApplyAdjacentWrapMetadata(visible, sources, width, cells);
    ghost var late := visible[..];
    MarkFullRows(visible, width, cells);
    forall i | 0 <= i < visible.Length
      ensures Padded(painted[i].text, visible[i].text)
    {
      assert visible[i].text == late[i].text;
      assert mid[i].text + Spaces(0) == mid[i].text;
      PaddedTwice(painted[i].text, mid[i].text, late[i].text);
    }
  }
}
