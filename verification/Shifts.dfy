/**
 In-place row shifts of the linear screen, cell by cell: the intermediate screens of the scrolling
 loops, and what they amount to on lines.
 */
module Shifts {
  import opened DisplayModel
  import opened Pending
  import Arithmetic
  import Geometry

  lemma CellOf(i: nat, cols: nat, rows: nat)
    requires 1 <= cols && i < Times(rows, cols)
    ensures RowOf(i, cols) < rows && ColumnOf(i, cols) < cols && Index(ColumnOf(i, cols), RowOf(i, cols), cols) == i
  {
    Geometry.DivLess(i, rows, cols);
  }

  lemma RowOfIndex(x: nat, y: nat, cols: nat, b: nat)
    requires x < cols
    ensures Index(x, y, cols) < Times(b, cols) <==> y < b
    ensures Times(y, cols) <= Index(x, y, cols) < Times(y + 1, cols)
  {
    if y < b {
      Geometry.RowBound(x, y, cols, b);
    } else {
      Arithmetic.MulMonotonic(b, y, cols);
    }
    Arithmetic.MulStep(cols, y);
  }

  lemma NextRow(x: nat, y: nat, cols: nat)
    ensures Index(x, y, cols) + cols == Index(x, y + 1, cols) && Times(y, cols) + cols == Times(y + 1, cols)
  {
    Arithmetic.MulStep(cols, y);
  }

  /** The screen while `scroll` copies cell `i`: cells from `top` on hold the cell one row below. */
  function ScrollingUp(flat: seq<Cell>, top: nat, cols: nat, i: nat): (r: seq<Cell>)
    ensures |r| == |flat|
  {
    seq(|flat|, j requires 0 <= j < |flat| =>
      if Times(top, cols) <= j < i - cols && j + cols < |flat| then flat[j + cols] else flat[j])
  }

  /** The screen while `revscroll` is about to copy cell `i`. */
  function ScrollingDown(flat: seq<Cell>, bottom: nat, cols: nat, i: int): (r: seq<Cell>)
    ensures |r| == |flat|
  {
    seq(|flat|, j requires 0 <= j < |flat| =>
      if i + cols < j < Times(bottom, cols) && j >= cols then flat[j - cols] else flat[j])
  }

  /** The screen while a row is blanked, up to column `n`. */
  function Blanking(flat: seq<Cell>, c: Cell, y: nat, cols: nat, n: nat): (r: seq<Cell>)
    ensures |r| == |flat|
  {
    seq(|flat|, j requires 0 <= j < |flat| => if Times(y, cols) <= j < Times(y, cols) + n then c else flat[j])
  }

  lemma ScrollUpStep(flat: seq<Cell>, top: nat, cols: nat, rows: nat, i: nat)
    requires |flat| == Times(rows, cols) && 1 <= cols && Times(top + 1, cols) <= i < |flat|
    ensures ScrollingUp(flat, top, cols, i)[i] == flat[i] && cols <= i
    ensures PutFlat(ScrollingUp(flat, top, cols, i), flat[i], ColumnOf(i - cols, cols), RowOf(i - cols, cols), cols, rows)
         == ScrollingUp(flat, top, cols, i + 1)
  {
    hide Times, Index, ColumnOf, RowOf;
    NextRow(0, top, cols);
    CellOf(i - cols, cols, rows);
  }

  lemma ScrollDownStep(flat: seq<Cell>, top: nat, bottom: nat, cols: nat, rows: nat, i: nat)
    requires |flat| == Times(rows, cols) && 1 <= cols && bottom <= rows && i + cols < Times(bottom, cols)
    ensures i + cols < |flat|
    ensures ScrollingDown(flat, bottom, cols, i)[i] == flat[i]
    ensures PutFlat(ScrollingDown(flat, bottom, cols, i), flat[i], ColumnOf(i + cols, cols), RowOf(i + cols, cols), cols, rows)
         == ScrollingDown(flat, bottom, cols, i - 1)
  {
    assert Times(bottom, cols) <= Times(rows, cols) by {
      Arithmetic.MulMonotonic(bottom, rows, cols);
    }
    hide Times, Index, ColumnOf, RowOf;
    CellOf(i + cols, cols, rows);
  }

  lemma BlankStep(flat: seq<Cell>, c: Cell, y: nat, cols: nat, rows: nat, n: nat)
    requires |flat| == Times(rows, cols) && y < rows && n < cols
    ensures PutFlat(Blanking(flat, c, y, cols, n), c, n, y, cols, rows) == Blanking(flat, c, y, cols, n + 1)
  {
    RowOfIndex(n, y, cols, rows);
    assert Index(n, y, cols) == Times(y, cols) + n;
    hide Times, Index, ColumnOf, RowOf;
  }

  lemma TableBlank(flat: seq<Cell>, c: Cell, y: nat, cols: nat, rows: nat)
    requires |flat| == Times(rows, cols) && y < rows
    ensures var t := Table(flat, cols, rows); Table(Blanking(flat, c, y, cols, cols), cols, rows) == t[y := seq(cols, _ => c)]
  {
    var t, t' := Table(flat, cols, rows), Table(Blanking(flat, c, y, cols, cols), cols, rows);
    hide Table, Times, Index;
    forall y', x' | 0 <= y' < rows && 0 <= x' < cols
      ensures t'[y'][x'] == t[y := seq(cols, _ => c)][y'][x']
    {
      TableAt(flat, cols, rows, x', y');
      TableAt(Blanking(flat, c, y, cols, cols), cols, rows, x', y');
      RowOfIndex(x', y', cols, y);
      RowOfIndex(x', y', cols, y + 1);
      NextRow(0, y, cols);
    }
    SameLines(t', t[y := seq(cols, _ => c)], cols);
  }

  /** A cell of the screen when `scroll` has copied everything. */
  lemma ScrolledUpCell(flat: seq<Cell>, top: nat, bottom: nat, cols: nat, rows: nat, x: nat, y: nat)
    requires |flat| == Times(rows, cols) && top < bottom <= rows && x < cols && y < rows
    ensures var t := Table(flat, cols, rows);
      Table(ScrollingUp(flat, top, cols, Times(bottom, cols)), cols, rows)[y][x] == if top <= y < bottom - 1 then t[y + 1][x] else t[y][x]
  {
    hide Table, Times, Index;
    NextRow(0, bottom - 1, cols);
    TableAt(ScrollingUp(flat, top, cols, Times(bottom, cols)), cols, rows, x, y);
    TableAt(flat, cols, rows, x, y);
    RowOfIndex(x, y, cols, top);
    RowOfIndex(x, y, cols, bottom - 1);
    NextRow(x, y, cols);
    if top <= y < bottom - 1 {
      TableAt(flat, cols, rows, x, y + 1);
    }
  }

  lemma MovedUpAt(t: seq<seq<Cell>>, top: nat, bottom: nat, y: nat)
    requires top < bottom <= |t| && y < |t|
    ensures var u := t[..top] + t[top + 1..bottom] + [t[bottom - 1]] + t[bottom..];
      |u| == |t| && u[y] == if top <= y < bottom - 1 then t[y + 1] else t[y]
  {
  }

  lemma TableScrollUp(flat: seq<Cell>, top: nat, bottom: nat, cols: nat, rows: nat)
    requires |flat| == Times(rows, cols) && top < bottom <= rows && 1 <= cols
    ensures var t := Table(flat, cols, rows);
      Table(ScrollingUp(flat, top, cols, Times(bottom, cols)), cols, rows)
      == t[..top] + t[top + 1..bottom] + [t[bottom - 1]] + t[bottom..]
  {
    hide *;
    var t, t' := Table(flat, cols, rows), Table(ScrollingUp(flat, top, cols, Times(bottom, cols)), cols, rows);
    var u := t[..top] + t[top + 1..bottom] + [t[bottom - 1]] + t[bottom..];
    forall y | 0 <= y < rows
      ensures |u[y]| == cols
    {
      MovedUpAt(t, top, bottom, y);
    }
    forall y, x | 0 <= y < rows && 0 <= x < cols
      ensures t'[y][x] == u[y][x]
    {
      ScrolledUpCell(flat, top, bottom, cols, rows, x, y);
      MovedUpAt(t, top, bottom, y);
    }
    SameLines(t', u, cols);
  }

  /** A cell of the screen when `revscroll` has copied everything. */
  lemma ScrolledDownCell(flat: seq<Cell>, top: nat, bottom: nat, cols: nat, rows: nat, x: nat, y: nat)
    requires |flat| == Times(rows, cols) && top < bottom <= rows && x < cols && y < rows
    ensures var t := Table(flat, cols, rows);
      Table(ScrollingDown(flat, bottom, cols, Times(top, cols) - 1), cols, rows)[y][x] == if top < y < bottom then t[y - 1][x] else t[y][x]
  {
    hide Table, Times, Index;
    NextRow(0, top, cols);
    TableAt(ScrollingDown(flat, bottom, cols, Times(top, cols) - 1), cols, rows, x, y);
    TableAt(flat, cols, rows, x, y);
    RowOfIndex(x, y, cols, top + 1);
    RowOfIndex(x, y, cols, bottom);
    if top < y < bottom {
      NextRow(x, y - 1, cols);
      TableAt(flat, cols, rows, x, y - 1);
    }
  }

  lemma MovedDownAt(t: seq<seq<Cell>>, top: nat, bottom: nat, y: nat)
    requires top < bottom <= |t| && y < |t|
    ensures var u := t[..top] + [t[top]] + t[top..bottom - 1] + t[bottom..];
      |u| == |t| && u[y] == if top < y < bottom then t[y - 1] else t[y]
  {
  }

  lemma TableScrollDown(flat: seq<Cell>, top: nat, bottom: nat, cols: nat, rows: nat)
    requires |flat| == Times(rows, cols) && top < bottom <= rows && 1 <= cols
    ensures var t := Table(flat, cols, rows);
      Table(ScrollingDown(flat, bottom, cols, Times(top, cols) - 1), cols, rows)
      == t[..top] + [t[top]] + t[top..bottom - 1] + t[bottom..]
  {
    hide *;
    var t, t' := Table(flat, cols, rows), Table(ScrollingDown(flat, bottom, cols, Times(top, cols) - 1), cols, rows);
    var u := t[..top] + [t[top]] + t[top..bottom - 1] + t[bottom..];
    forall y | 0 <= y < rows
      ensures |u[y]| == cols
    {
      MovedDownAt(t, top, bottom, y);
    }
    forall y, x | 0 <= y < rows && 0 <= x < cols
      ensures t'[y][x] == u[y][x]
    {
      ScrolledDownCell(flat, top, bottom, cols, rows, x, y);
      MovedDownAt(t, top, bottom, y);
    }
    SameLines(t', u, cols);
  }

  /** The shift and the blank row that make up one scroll. */
  lemma ScrolledLines(d: Display, flat: seq<Cell>)
    requires d.Sized() && d.top < d.bottom && |flat| == Times(d.rows, d.cols) && d.lines == Table(flat, d.cols, d.rows)
    ensures var shifted := Table(ScrollingUp(flat, d.top, d.cols, Times(d.bottom, d.cols)), d.cols, d.rows);
      d.Scroll() == d.(lines := shifted[d.bottom - 1 := Blanks(d.cols, d.fg, d.bg)])
  {
    TableScrollUp(flat, d.top, d.bottom, d.cols, d.rows);
    hide Table, ScrollingUp, Times, Blanks;
  }

  lemma RevScrolledLines(d: Display, flat: seq<Cell>)
    requires d.Sized() && |flat| == Times(d.rows, d.cols) && d.lines == Table(flat, d.cols, d.rows)
    ensures var shifted := if d.top < d.bottom then ScrollingDown(flat, d.bottom, d.cols, Times(d.top, d.cols) - 1) else flat;
      d.RevScroll() == d.(lines := Table(shifted, d.cols, d.rows)[d.top := Blanks(d.cols, d.fg, d.bg)])
  {
    hide *;
    RevScrollIs(d);
    if d.top < d.bottom {
      TableScrollDown(flat, d.top, d.bottom, d.cols, d.rows);
      ReplaceTop(d.lines, d.top, d.bottom, Blanks(d.cols, d.fg, d.bg));
    }
  }

  lemma ReplaceTop(t: seq<seq<Cell>>, top: nat, bottom: nat, line: seq<Cell>)
    requires top < bottom <= |t|
    ensures (t[..top] + [t[top]] + t[top..bottom - 1] + t[bottom..])[top := line] == t[..top] + [line] + t[top..bottom - 1] + t[bottom..]
  {
  }

  lemma RevScrollIs(d: Display)
    requires d.Sized()
    ensures d.top < d.rows && d.bottom <= d.rows && |d.lines| == d.rows && d.cols >= 1
    ensures d.RevScroll() == d.(lines :=
      if d.top < d.bottom then d.lines[..d.top] + [Blanks(d.cols, d.fg, d.bg)] + d.lines[d.top..d.bottom - 1] + d.lines[d.bottom..]
      else d.lines[d.top := Blanks(d.cols, d.fg, d.bg)])
  {
    hide Blanks;
  }

  lemma BlankNone(flat: seq<Cell>, c: Cell, y: nat, cols: nat)
    ensures Blanking(flat, c, y, cols, 0) == flat
  {
  }

  lemma ScrollUpNone(flat: seq<Cell>, top: nat, cols: nat)
    ensures ScrollingUp(flat, top, cols, Times(top + 1, cols)) == flat
  {
    NextRow(0, top, cols);
  }

  lemma ScrollDownNone(flat: seq<Cell>, bottom: nat, cols: nat)
    requires 1 <= bottom
    ensures ScrollingDown(flat, bottom, cols, Times(bottom - 1, cols) - 1) == flat
  {
    NextRow(0, bottom - 1, cols);
  }

  /** The screen while it is cleared, up to cell `n`. */
  function Filling(flat: seq<Cell>, c: Cell, n: nat): (r: seq<Cell>)
    ensures |r| == |flat|
  {
    seq(|flat|, j requires 0 <= j < |flat| => if j < n then c else flat[j])
  }

  lemma FillNone(flat: seq<Cell>, c: Cell)
    ensures Filling(flat, c, 0) == flat
  {
  }

  lemma FillStep(flat: seq<Cell>, c: Cell, cols: nat, rows: nat, i: nat)
    requires |flat| == Times(rows, cols) && 1 <= cols && i < |flat|
    ensures PutFlat(Filling(flat, c, i), c, ColumnOf(i, cols), RowOf(i, cols), cols, rows) == Filling(flat, c, i + 1)
  {
    CellOf(i, cols, rows);
    hide Times, Index, ColumnOf, RowOf;
  }

  lemma TableFill(flat: seq<Cell>, c: Cell, cols: nat, rows: nat)
    requires |flat| == Times(rows, cols)
    ensures Table(Filling(flat, c, Times(rows, cols)), cols, rows) == seq(rows, _ => seq(cols, _ => c))
  {
    var t := Table(Filling(flat, c, Times(rows, cols)), cols, rows);
    hide Table, Times, Index;
    forall y, x | 0 <= y < rows && 0 <= x < cols
      ensures t[y][x] == c
    {
      TableAt(Filling(flat, c, Times(rows, cols)), cols, rows, x, y);
    }
    SameLines(t, seq(rows, _ => seq(cols, _ => c)), cols);
  }
}
