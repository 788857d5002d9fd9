/** Copying a mouse selection out of wrapped display rows. */
module Selection {
  import opened Bytes
  import opened Utf8
  import Capture

  const NEWLINE: Rune := 0x0a

  /** A display row; soft: the line goes on in the next row. */
  datatype Row = Row(text: seq<Rune>, soft: bool)

  /** Where the button was pressed and where the pointer is now. */
  datatype Drag = Drag(startL: int, startC: int, endL: int, endC: int)

  // ---- Wrapping ----

  /** One logical line cut into rows of at most width runes. */
  function Wrap(text: seq<Rune>, width: int): (rows: seq<Row>)
    ensures rows != []
    decreases |text|
  {
    if width <= 0 || |text| <= width then [Row(text, false)]
    else [Row(text[..width], true)] + Wrap(text[width..], width)
  }

  function WrapAll(lines: seq<seq<Rune>>, width: int): seq<Row> {
    if lines == [] then [] else Wrap(lines[0], width) + WrapAll(lines[1..], width)
  }

  method AppendWrapped(out: seq<Row>, text: seq<Rune>, width: int) returns (r: seq<Row>)
    ensures r == out + Wrap(text, width)
  {
    if width <= 0 || |text| <= width {
      return out + [Row(text, false)];
    }
    r := out;
    var runes := text;
    while |runes| > width
      invariant r + Wrap(runes, width) == out + Wrap(text, width)
      decreases |runes|
    {
      Associative(r, [Row(runes[..width], true)], Wrap(runes[width..], width));
      r := r + [Row(runes[..width], true)];
      runes := runes[width..];
    }
    r := r + [Row(runes, false)];
  }

  /** The number of rows a line takes, as the row budget counts them. */
  lemma {:induction false} WrapCount(text: seq<Rune>, width: int)
    requires width > 0
    ensures |Wrap(text, width)| == if text == [] then 1 else (|text| + width - 1) / width
    decreases |text|
  {
    if |text| > width {
      WrapCount(text[width..], width);
      var n := |text| - 1;
      QuotientIs(n, width, n / width, n % width);
      QuotientIs(n + width, width, n / width + 1, n % width);
    } else if text != [] {
      QuotientIs(|text| + width - 1, width, 1, |text| - 1);
    }
  }

  /** Every row but the last is full and goes on; the last is hard, and empty only for an empty line. */
  lemma {:induction false} WrappedRowsAreFull(text: seq<Rune>, width: int)
    requires width > 0
    ensures var rows := Wrap(text, width); var last := |rows| - 1;
            && (forall i | 0 <= i < last :: |rows[i].text| == width && rows[i].soft)
            && |rows[last].text| <= width && !rows[last].soft && (rows[last].text == [] ==> text == [])
    decreases |text|
  {
    if |text| > width {
      WrappedRowsAreFull(text[width..], width);
    }
  }

  /** The capture's row budget counts exactly the rows that wrapping makes. */
  lemma BudgetCountsRows(line: seq<Byte>, width: int)
    ensures Capture.WrappedLineCount(line, width) == |Wrap(Decode(line), width)|
  {
    if width > 0 { WrapCount(Decode(line), width); }
  }

  lemma MulAtLeast(k: nat, d: nat)
    requires k >= 1
    ensures k * d >= d
  {
  }

  lemma QuotientIs(n: nat, d: nat, q: nat, r: nat)
    requires d > 0 && r < d && n == q * d + r
    ensures n / d == q
  {
    var q', r' := n / d, n % d;
    assert n == d * q' + r' && 0 <= r' < d;
    assert (q' - q) * d == d * q' - q * d;
    assert (q - q') * d == q * d - d * q';
    if q < q' {
      MulAtLeast(q' - q, d);
    } else if q > q' {
      MulAtLeast(q - q', d);
    }
  }

  // ---- The logical text behind rows ----

  /** What a row contributes: its text, and a line break unless the line goes on. */
  function Piece(row: Row): seq<Rune> {
    row.text + if row.soft then [] else [NEWLINE]
  }

  /** The rows joined, a line break after every hard row. */
  function Joined(rows: seq<Row>): seq<Rune> {
    if rows == [] then [] else Joined(rows[..|rows| - 1]) + Piece(rows[|rows| - 1])
  }

  /** Columns before the row count as its start, columns past it as its end. */
  function Clamp(c: int, n: nat): (r: nat)
    ensures r <= n
  {
    if c < 0 then 0 else if c > n then n else c
  }

  /** The offset in the joined text of column c of row l. */
  function Offset(rows: seq<Row>, l: nat, c: int): nat
    requires l < |rows|
  {
    |Joined(rows[..l])| + Clamp(c, |rows[l].text|)
  }

  function Normalized(d: Drag): Drag {
    if d.startL > d.endL || (d.startL == d.endL && d.startC > d.endC)
    then Drag(d.endL, d.endC, d.startL, d.startC)
    else d
  }

  function ClampRange(startX: int, endX: int, n: nat): (r: (nat, nat))
    ensures r.0 <= r.1 <= n
  {
    var s := Clamp(startX, n);
    var e := if endX > n then n else endX;
    (s, if e < s then s else e)
  }

  /** The selected range of the joined text: both ends brought onto the rows, the last cell included. */
  function Range(rows: seq<Row>, d: Drag): (r: (nat, nat))
    requires rows != []
  {
    RangeOf(rows, Normalized(d))
  }

  /** The same for ends that are in order. */
  function RangeOf(rows: seq<Row>, n: Drag): (r: (nat, nat))
    requires rows != []
  {
    var sl := if n.startL < 0 then 0 else n.startL;
    var el := if n.endL >= |rows| then |rows| - 1 else n.endL;
    if sl > el then (0, 0)
    else
      var a := Offset(rows, sl, n.startC);
      var b := Offset(rows, el, n.endC + 1);
      (a, if b < a then a else b)
  }

  lemma {:induction false} JoinedConcat(x: seq<Row>, y: seq<Row>)
    ensures Joined(x + y) == Joined(x) + Joined(y)
    decreases |y|
  {
    if y == [] {
      assert x + y == x && Joined(x) + [] == Joined(x);
    } else {
      var front, last := y[..|y| - 1], y[|y| - 1];
      JoinedConcat(x, front);
      assert (x + y)[..|x + y| - 1] == x + front;
      Associative(Joined(x), Joined(front), Piece(last));
    }
  }

  lemma JoinedSnoc(rows: seq<Row>, l: nat)
    requires l < |rows|
    ensures Joined(rows[..l + 1]) == Joined(rows[..l]) + Piece(rows[l])
  {
    assert rows[..l + 1][..l] == rows[..l];
  }

  lemma SliceInside<T>(before: seq<T>, mid: seq<T>, rest: seq<T>, i: nat, j: nat)
    requires i <= j <= |mid|
    ensures (before + mid + rest)[|before| + i..|before| + j] == mid[i..j]
  {
  }

  /** The joined text at a row: what comes before, the row's text, and what comes after. */
  lemma RowInJoined(rows: seq<Row>, l: nat)
    requires l < |rows|
    ensures var p := |Joined(rows[..l])|; var n := |rows[l].text|;
            && p + n <= |Joined(rows)|
            && (forall i, j | 0 <= i <= j <= n :: Joined(rows)[p + i..p + j] == rows[l].text[i..j])
            && Joined(rows[..l + 1]) <= Joined(rows) && Joined(rows[..l]) <= Joined(rows)
  {
    var before, mid, rest := Joined(rows[..l]), Piece(rows[l]), Joined(rows[l + 1..]);
    JoinedSnoc(rows, l);
    assert rows == rows[..l + 1] + rows[l + 1..];
    JoinedConcat(rows[..l + 1], rows[l + 1..]);
    hide Joined, Piece;
    forall i, j | 0 <= i <= j <= |rows[l].text|
      ensures Joined(rows)[|before| + i..|before| + j] == rows[l].text[i..j]
    {
      SliceInside(before, mid, rest, i, j);
    }
  }

  lemma RangeInside(rows: seq<Row>, n: Drag)
    requires rows != []
    ensures var r := RangeOf(rows, n); r.0 <= r.1 <= |Joined(rows)|
  {
    var sl := if n.startL < 0 then 0 else n.startL;
    var el := if n.endL >= |rows| then |rows| - 1 else n.endL;
    if sl <= el {
      RowInJoined(rows, sl);
      RowInJoined(rows, el);
    }
  }

  /** The rows and columns of a drag once both ends are on the rows. */
  datatype Span = Span(sl: nat, sc: int, el: nat, ec: int)

  ghost predicate OnRows(rows: seq<Row>, n: Span) {
    n.sl <= n.el < |rows|
  }

  /** How far the joined text has been copied when the rows before l are done. */
  ghost function Position(rows: seq<Row>, n: Span, l: nat): nat
    requires OnRows(rows, n) && n.sl <= l <= n.el + 1
  {
    var a := Offset(rows, n.sl, n.sc);
    var b := Offset(rows, n.el, n.ec + 1);
    if l == n.sl then a
    else if l == n.el + 1 then if b < a then a else b
    else |Joined(rows[..l])|
  }

  /** The columns of row l that are copied. */
  function Columns(rows: seq<Row>, n: Span, l: nat): (x: (nat, nat))
    requires n.sl <= l <= n.el < |rows|
    ensures x.0 <= x.1 <= |rows[l].text|
  {
    var width := |rows[l].text|;
    ClampRange(if l == n.sl then n.sc else 0, if l == n.el then n.ec + 1 else width, width)
  }

  /** The part of row l that is copied. */
  function Part(rows: seq<Row>, n: Span, l: nat): seq<Rune>
    requires n.sl <= l <= n.el < |rows|
  {
    var x := Columns(rows, n, l);
    var text := rows[l].text[x.0..x.1];
    if l < n.el && !rows[l].soft then text + [NEWLINE] else text
  }

  lemma StartsBefore(rows: seq<Row>, n: Span, l: nat)
    requires n.sl < l < |rows|
    ensures Offset(rows, n.sl, n.sc) <= |Joined(rows[..l])|
  {
    RowInJoined(rows[..l], n.sl);
    assert rows[..l][..n.sl] == rows[..n.sl];
  }

  lemma PositionIs(rows: seq<Row>, n: Span, l: nat)
    requires OnRows(rows, n) && n.sl <= l <= n.el
    ensures Position(rows, n, l) == |Joined(rows[..l])| + Columns(rows, n, l).0
    ensures Position(rows, n, l + 1) ==
            if l == n.el then |Joined(rows[..l])| + Columns(rows, n, l).1 else |Joined(rows[..l + 1])|
  {
    if n.sl < l { StartsBefore(rows, n, l); }
  }

  lemma ColumnsEnd(rows: seq<Row>, n: Span, l: nat)
    requires n.sl <= l < n.el < |rows|
    ensures Columns(rows, n, l).1 == |rows[l].text|
  {
  }

  /** Each row's part is the next piece of the joined text. */
  lemma PartIsNext(rows: seq<Row>, n: Span, l: nat)
    requires OnRows(rows, n) && n.sl <= l <= n.el
    ensures var p, q := Position(rows, n, l), Position(rows, n, l + 1);
            p <= q <= |Joined(rows)| && Part(rows, n, l) == Joined(rows)[p..q]
  {
    hide Joined, Offset, Position, Columns;
    var all, start, x := Joined(rows), |Joined(rows[..l])|, Columns(rows, n, l);
    if l < n.el { ColumnsEnd(rows, n, l); }
    PositionIs(rows, n, l);
    RowInJoined(rows, l);
    assert rows[l].text[x.0..x.1] == all[start + x.0..start + x.1];
    if l < n.el {
      JoinedSnoc(rows, l);
      BreakInJoined(rows, l);
      var q := |Joined(rows[..l + 1])|;
      if rows[l].soft { assert start + x.1 == q; }
    }
  }

  lemma BreakInJoined(rows: seq<Row>, l: nat)
    requires l < |rows|
    ensures var e, q := |Joined(rows[..l])| + |rows[l].text|, |Joined(rows[..l + 1])|;
            e <= q <= |Joined(rows)| && Joined(rows)[e..q] == if rows[l].soft then [] else [NEWLINE]
  {
    RowInJoined(rows, l);
    JoinedSnoc(rows, l);
    var e, q := |Joined(rows[..l])| + |rows[l].text|, |Joined(rows[..l + 1])|;
    assert Joined(rows)[e..q] == Joined(rows[..l + 1])[e..q];
  }

  /** What a drag copies: one contiguous piece of the joined text. */
  function Copied(rows: seq<Row>, d: Drag): seq<Rune> {
    CopiedOf(rows, Normalized(d))
  }

  function CopiedOf(rows: seq<Row>, n: Drag): seq<Rune> {
    if rows == [] then []
    else
      var r := RangeOf(rows, n);
      RangeInside(rows, n);
      Joined(rows)[r.0..r.1]
  }

  method RowText(rows: seq<Row>, n: Span, row: nat) returns (text: seq<Rune>)
    requires n.sl <= row <= n.el < |rows|
    ensures text == Part(rows, n, row)
  {
    var runes := rows[row].text;
    var startX, endX := 0, |runes|;
    if row == n.sl {
      startX := n.sc;
    }
    if row == n.el {
      endX := n.ec + 1;
    }
    var x := ClampRange(startX, endX, |runes|);
    text := runes[x.0..x.1];
    if row < n.el && !rows[row].soft {
      text := text + [NEWLINE];
    }
  }

  method SelectionText(rows: seq<Row>, d: Drag) returns (text: seq<Rune>)
    ensures text == Copied(rows, d)
  {
    if |rows| == 0 {
      return [];
    }
    var n := Normalized(d);
    var sl, el := n.startL, n.endL;
    if sl < 0 {
      sl := 0;
    }
    if el >= |rows| {
      el := |rows| - 1;
    }
    if sl > el {
      return [];
    }
    var span := Span(sl, n.startC, el, n.endC);
    text := CopySpan(rows, span);
  }

  /** The loop over the selected rows. */
  method CopySpan(rows: seq<Row>, n: Span) returns (text: seq<Rune>)
    requires OnRows(rows, n)
    ensures var p, q := Position(rows, n, n.sl), Position(rows, n, n.el + 1);
            p <= q <= |Joined(rows)| && text == Joined(rows)[p..q]
  {
    ghost var all := Joined(rows);
    ghost var a := Position(rows, n, n.sl);
    PartIsNext(rows, n, n.sl);
    text := [];
    for row := n.sl to n.el + 1
      invariant a <= Position(rows, n, row) <= |all|
      invariant text == all[a..Position(rows, n, row)]
    {
      PartIsNext(rows, n, row);
      var part := RowText(rows, n, row);
      text := text + part;
    }
  }

  /** Dragging from either end copies the same. */
  lemma DirectionDoesNotMatter(rows: seq<Row>, d: Drag)
    ensures Copied(rows, d) == Copied(rows, Drag(d.endL, d.endC, d.startL, d.startC))
  {
    hide CopiedOf;
    assert Normalized(d) == Normalized(Drag(d.endL, d.endC, d.startL, d.startC));
  }

  // ---- Selections at different widths ----

  /** The lines themselves, each with its line break. */
  function Lines(lines: seq<seq<Rune>>): seq<Rune> {
    if lines == [] then [] else lines[0] + [NEWLINE] + Lines(lines[1..])
  }

  lemma {:induction false} WrapJoins(text: seq<Rune>, width: int)
    ensures Joined(Wrap(text, width)) == text + [NEWLINE]
    decreases |text|
  {
    if width <= 0 || |text| <= width {
      assert [Row(text, false)][..0] == [];
      assert [] + (text + [NEWLINE]) == text + [NEWLINE];
    } else {
      var head := Row(text[..width], true);
      WrapJoins(text[width..], width);
      JoinedConcat([head], Wrap(text[width..], width));
      assert [head][..0] == [] && Joined([head]) == [] + (text[..width] + []) == text[..width];
      Associative(text[..width], text[width..], [NEWLINE]);
      assert text[..width] + text[width..] == text;
    }
  }

  /** Whatever the width, the rows of some lines join to those lines. */
  lemma {:induction false} WrappingIsInvisible(lines: seq<seq<Rune>>, width: int)
    ensures Joined(WrapAll(lines, width)) == Lines(lines)
  {
    if lines != [] {
      WrapJoins(lines[0], width);
      WrappingIsInvisible(lines[1..], width);
      JoinedConcat(Wrap(lines[0], width), WrapAll(lines[1..], width));
    }
  }

  /** So two selections that cover the same range of the lines, at any two widths, copy the same text. */
  lemma SameRangeSameText(lines: seq<seq<Rune>>, width: int, width': int, d: Drag, d': Drag)
    requires var x, y := WrapAll(lines, width), WrapAll(lines, width');
             x != [] && y != [] && Range(x, d) == Range(y, d')
    ensures Copied(WrapAll(lines, width), d) == Copied(WrapAll(lines, width'), d')
  {
    WrappingIsInvisible(lines, width);
    WrappingIsInvisible(lines, width');
  }

  // ---- The same place at different widths ----

  /** Row and column, within the rows of one line, of its cell c; cells past the end are on the last row. */
  function Place(text: seq<Rune>, width: int, c: nat): (r: (nat, nat))
    ensures r.0 < |Wrap(text, width)|
    decreases |text|
  {
    if width <= 0 || |text| <= width || c < width then (0, c)
    else
      var r := Place(text[width..], width, c - width);
      (r.0 + 1, r.1)
  }

  /** Row and column of cell c of line k among the rows of all lines. */
  function Locate(lines: seq<seq<Rune>>, width: int, k: nat, c: nat): (nat, nat)
    requires k < |lines|
  {
    var r := Place(lines[k], width, c);
    (|WrapAll(lines[..k], width)| + r.0, r.1)
  }

  /** The offset of column c of line k in the lines themselves. */
  function LineOffset(lines: seq<seq<Rune>>, k: nat, c: nat): nat
    requires k < |lines|
  {
    |Lines(lines[..k])| + Clamp(c, |lines[k]|)
  }

  /** Before and behind a cell the rows of its line hold what the line holds. */
  lemma {:induction false} PlaceIsOffset(text: seq<Rune>, width: int, c: nat)
    ensures var rows, r := Wrap(text, width), Place(text, width, c);
            && Offset(rows, r.0, r.1) == Clamp(c, |text|)
            && Offset(rows, r.0, r.1 + 1) == Clamp(c + 1, |text|)
    decreases |text|
  {
    hide Offset, Joined;
    var rows := Wrap(text, width);
    FirstRowOffset(rows, c);
    FirstRowOffset(rows, c + 1);
    if width > 0 && |text| > width && c >= width {
      PlaceIsOffset(text[width..], width, c - width);
      var r, tail := Place(text[width..], width, c - width), Wrap(text[width..], width);
      FirstRowShifts(text[..width], tail, r.0, r.1);
      FirstRowShifts(text[..width], tail, r.0, r.1 + 1);
    }
  }

  lemma FirstRowOffset(rows: seq<Row>, c: int)
    requires rows != []
    ensures Offset(rows, 0, c) == Clamp(c, |rows[0].text|)
  {
    assert rows[..0] == [];
  }

  lemma FirstRowShifts(text: seq<Rune>, tail: seq<Row>, l: nat, c: int)
    requires l < |tail|
    ensures Offset([Row(text, true)] + tail, l + 1, c) == |text| + Offset(tail, l, c)
  {
    var head := [Row(text, true)];
    OffsetBehind(head, tail, l, c);
    assert head[..0] == [] && Joined(head) == [] + (text + []) == text;
  }

  /** Rows put in front shift every offset by their text. */
  lemma OffsetBehind(x: seq<Row>, y: seq<Row>, l: nat, c: int)
    requires l < |y|
    ensures Offset(x + y, |x| + l, c) == |Joined(x)| + Offset(y, l, c)
  {
    assert (x + y)[..|x| + l] == x + y[..l];
    JoinedConcat(x, y[..l]);
  }

  lemma OffsetBefore(x: seq<Row>, y: seq<Row>, l: nat, c: int)
    requires l < |x|
    ensures Offset(x + y, l, c) == Offset(x, l, c)
  {
    assert (x + y)[..l] == x[..l];
  }

  lemma {:induction false} WrapAllConcat(x: seq<seq<Rune>>, y: seq<seq<Rune>>, width: int)
    ensures WrapAll(x + y, width) == WrapAll(x, width) + WrapAll(y, width)
  {
    if x == [] {
      assert x + y == y;
    } else {
      assert (x + y)[1..] == x[1..] + y;
      WrapAllConcat(x[1..], y, width);
      Associative(Wrap(x[0], width), WrapAll(x[1..], width), WrapAll(y, width));
    }
  }

  lemma RowsAround(lines: seq<seq<Rune>>, width: int, k: nat)
    requires k < |lines|
    ensures WrapAll(lines, width)
            == WrapAll(lines[..k], width) + (Wrap(lines[k], width) + WrapAll(lines[k + 1..], width))
  {
    assert lines == lines[..k] + lines[k..] && lines[k..][0] == lines[k] && lines[k..][1..] == lines[k + 1..];
    WrapAllConcat(lines[..k], lines[k..], width);
  }

  lemma OffsetInside(before: seq<Row>, mid: seq<Row>, after: seq<Row>, l: nat, c: int)
    requires l < |mid|
    ensures Offset(before + (mid + after), |before| + l, c) == |Joined(before)| + Offset(mid, l, c)
  {
    OffsetBehind(before, mid + after, l, c);
    OffsetBefore(mid, after, l, c);
  }

  /** At every width each cell of each line has a row and column, with the offset it has in the lines. */
  lemma LocateIsOffset(lines: seq<seq<Rune>>, width: int, k: nat, c: nat)
    requires k < |lines|
    ensures var rows, r := WrapAll(lines, width), Locate(lines, width, k, c);
            && r.0 < |rows|
            && Offset(rows, r.0, r.1) == LineOffset(lines, k, c)
            && Offset(rows, r.0, r.1 + 1) == LineOffset(lines, k, c + 1)
  {
    hide Joined, Wrap, WrapAll, Place, Offset, Lines, Clamp;
    var before, mid, after := WrapAll(lines[..k], width), Wrap(lines[k], width), WrapAll(lines[k + 1..], width);
    var r := Place(lines[k], width, c);
    RowsAround(lines, width, k);
    PlaceIsOffset(lines[k], width, c);
    WrappingIsInvisible(lines[..k], width);
    OffsetInside(before, mid, after, r.0, r.1);
    OffsetInside(before, mid, after, r.0, r.1 + 1);
  }

  predicate NotAfter(a: (nat, nat), b: (nat, nat)) {
    a.0 < b.0 || (a.0 == b.0 && a.1 <= b.1)
  }

  lemma {:induction false} PlaceIsMonotone(text: seq<Rune>, width: int, c: nat, c': nat)
    requires c <= c'
    ensures NotAfter(Place(text, width, c), Place(text, width, c'))
    decreases |text|
  {
    if width > 0 && |text| > width && c >= width { PlaceIsMonotone(text[width..], width, c - width, c' - width); }
  }

  /** Cells in the order of the lines are in the order of the rows. */
  lemma LocateIsMonotone(lines: seq<seq<Rune>>, width: int, k: nat, c: nat, k': nat, c': nat)
    requires k < |lines| && k' < |lines| && NotAfter((k, c), (k', c'))
    ensures NotAfter(Locate(lines, width, k, c), Locate(lines, width, k', c'))
  {
    if k == k' {
      PlaceIsMonotone(lines[k], width, c, c');
    } else {
      assert lines[..k'] == lines[..k] + lines[k..k'] && lines[k..k'][0] == lines[k];
      WrapAllConcat(lines[..k], lines[k..k'], width);
    }
  }

  /** The drag from cell c of line k to cell c' of line k', as the rows at some width show it. */
  function DragAt(lines: seq<seq<Rune>>, width: int, k: nat, c: nat, k': nat, c': nat): Drag
    requires k < |lines| && k' < |lines|
  {
    var a, b := Locate(lines, width, k, c), Locate(lines, width, k', c');
    Drag(a.0, a.1, b.0, b.1)
  }

  /** The copied text of a drag between two cells: from the first up to and including the second, at any width. */
  lemma DragCopiesLines(lines: seq<seq<Rune>>, width: int, k: nat, c: nat, k': nat, c': nat)
    requires k < |lines| && k' < |lines| && NotAfter((k, c), (k', c'))
    ensures var a, b := LineOffset(lines, k, c), LineOffset(lines, k', c' + 1);
            a <= b <= |Lines(lines)| &&
            Copied(WrapAll(lines, width), DragAt(lines, width, k, c, k', c')) == Lines(lines)[a..b]
  {
    var rows, d := WrapAll(lines, width), DragAt(lines, width, k, c, k', c');
    LocateIsOffset(lines, width, k, c);
    LocateIsOffset(lines, width, k', c');
    LocateIsMonotone(lines, width, k, c, k', c');
    WrappingIsInvisible(lines, width);
    OffsetsOrdered(lines, k, c, k', c');
    RangeInside(rows, Normalized(d));
    hide Joined, WrapAll, Locate, Offset, LineOffset, Lines;
    assert Normalized(d) == d;
    assert Range(rows, d) == (LineOffset(lines, k, c), LineOffset(lines, k', c' + 1));
  }

  lemma OffsetsOrdered(lines: seq<seq<Rune>>, k: nat, c: nat, k': nat, c': nat)
    requires k < |lines| && k' < |lines| && NotAfter((k, c), (k', c'))
    ensures LineOffset(lines, k, c) <= LineOffset(lines, k', c' + 1)
  {
    if k < k' {
      assert lines[..k'] == lines[..k] + lines[k..k'] && lines[k..k'][0] == lines[k];
      LinesConcat(lines[..k], lines[k..k']);
    }
  }

  lemma {:induction false} LinesConcat(x: seq<seq<Rune>>, y: seq<seq<Rune>>)
    ensures Lines(x + y) == Lines(x) + Lines(y)
  {
    if x == [] {
      assert x + y == y;
    } else {
      assert (x + y)[1..] == x[1..] + y;
      LinesConcat(x[1..], y);
      Associative(x[0] + [NEWLINE], Lines(x[1..]), Lines(y));
    }
  }

  /** So a drag between the same two cells copies the same text at any two widths, from whichever end it started. */
  lemma SameCellsSameText(lines: seq<seq<Rune>>, width: int, width': int, k: nat, c: nat, k': nat, c': nat)
    requires k < |lines| && k' < |lines|
    ensures Copied(WrapAll(lines, width), DragAt(lines, width, k, c, k', c'))
            == Copied(WrapAll(lines, width'), DragAt(lines, width', k, c, k', c'))
  {
    hide Copied, WrapAll, Locate, Lines, LineOffset;
    if NotAfter((k, c), (k', c')) {
      DragCopiesLines(lines, width, k, c, k', c');
      DragCopiesLines(lines, width', k, c, k', c');
    } else {
      DragCopiesLines(lines, width, k', c', k, c);
      DragCopiesLines(lines, width', k', c', k, c);
      DirectionDoesNotMatter(WrapAll(lines, width), DragAt(lines, width, k, c, k', c'));
      DirectionDoesNotMatter(WrapAll(lines, width'), DragAt(lines, width', k, c, k', c'));
    }
  }
}
