/**
 Closed forms of the editing controls, and exactly when the code meets them.
 */
module EditingForms {
  import opened Words
  import opened DisplayModel
  import opened Pending
  import opened Editing
  import Arithmetic

  // ---- Scrolling (IND and RI)

  /** Scrolling back and then forward restores every line but the last of the region, which is blank. */
  lemma RevScrollThenScroll(d: Display)
    requires d.Sized() && d.top < d.bottom
    ensures d.RevScroll().Scroll() == d.(lines := d.lines[d.bottom - 1 := d.BlankLine()])
  {
    var lines := d.RevScroll().lines;
    assert lines[d.top + 1..d.bottom] == d.lines[d.top..d.bottom - 1];
    assert lines[..d.top] == d.lines[..d.top] && lines[d.bottom..] == d.lines[d.bottom..];
  }

  lemma ScrollThenRevScroll(d: Display)
    requires d.Sized() && d.top < d.bottom
    ensures d.Scroll().RevScroll() == d.(lines := d.lines[d.top := d.BlankLine()])
  {
    var lines := d.Scroll().lines;
    assert lines[d.top..d.bottom - 1] == d.lines[d.top + 1..d.bottom];
    assert lines[..d.top] == d.lines[..d.top] && lines[d.bottom..] == d.lines[d.bottom..];
  }

  /** `n` scrolls in one: the first `n` lines of the region are lost, or all of them. */
  lemma {:induction false} ScrollsForm(d: Display, n: nat)
    requires d.Sized() && d.top < d.bottom
    ensures Scrolls(d, n).lines == ScrolledBy(d, if n > d.bottom - d.top then d.bottom - d.top else n)
    decreases n
  {
    hide *;
    ScrollsUnfold(d, n);
    if n == 0 {
      ScrolledNone(d);
    } else {
      ScrollsForm(d.Scroll(), n - 1);
      ScrolledNext(d, if n - 1 > d.bottom - d.top then d.bottom - d.top else n - 1);
    }
  }

  lemma ScrollsUnfold(d: Display, n: nat)
    requires d.Sized() && d.top < d.bottom
    ensures d.bottom <= d.rows
    ensures Scrolls(d, n) == if n == 0 then d else Scrolls(d.Scroll(), n - 1)
  {
  }

  lemma ScrolledNone(d: Display)
    requires d.Sized() && d.top < d.bottom
    ensures ScrolledBy(d, 0) == d.lines
  {
    assert d.lines == d.lines[..d.top] + d.lines[d.top..d.bottom] + [] + d.lines[d.bottom..];
  }

  function ScrolledBy(d: Display, k: nat): seq<seq<Cell>>
    requires d.Sized() && d.top + k <= d.bottom
  {
    d.lines[..d.top] + d.lines[d.top + k..d.bottom] + seq(k, _ => d.BlankLine()) + d.lines[d.bottom..]
  }

  lemma ScrolledNext(d: Display, k: nat)
    requires d.Sized() && d.top + k <= d.bottom && d.top < d.bottom
    ensures ScrolledBy(d.Scroll(), k) == if d.top + k < d.bottom then ScrolledBy(d, k + 1) else ScrolledBy(d, k)
  {
    var lines := d.Scroll().lines;
    assert lines[..d.top] == d.lines[..d.top] && lines[d.bottom..] == d.lines[d.bottom..];
    if d.top + k < d.bottom {
      assert lines[d.top + k..d.bottom] == d.lines[d.top + k + 1..d.bottom] + [d.BlankLine()];
      assert [d.BlankLine()] + seq(k, _ => d.BlankLine()) == seq(k + 1, _ => d.BlankLine());
    }
  }

  // ---- ICH and DCH (sections 8.3.64 and 8.3.26 of ECMA-48)

  /** What DCH should do: the rest of the line moves left and its tail is blanked. */
  function Deleted(d: Display, n: nat): Display
    requires d.Sized()
  {
    var x, y := d.X(), d.Y();
    var line := d.lines[y];
    var line' := if x + n >= d.cols then line[..x] + seq(d.cols - x, _ => d.Blank())
                 else line[..x] + line[x + n..] + seq(n, _ => d.Blank());
    d.(lines := d.lines[y := line'], cx := x, cy := y)
  }

  /** DCH is right when the gap fits on the line. */
  lemma DeleteFits(d: Display, n: nat)
    requires d.Sized() && d.top < d.bottom && n <= d.cols - d.X()
    ensures DeleteCharacters(d, n) == Deleted(d, n)
  {
    hide *;
    GapClosed(d, n);
    DeleteIs(d, n);
    if n > 0 {
      RawPutsInLine(Moved(d, n), SPACE, n);
    } else {
      RawPutsIs(Moved(d, n), SPACE, 0);
    }
  }

  /** DCH before it writes the blanks. */
  function Moved(d: Display, n: nat): (r: Display)
    requires d.Sized()
    ensures r.Sized()
  {
    d.(lines := d.lines[d.Y() := CloseGap(d.lines[d.Y()], d.X(), n)]).SetCursor(SizeSub(d.cols, n), d.Y())
  }

  lemma DeleteIs(d: Display, n: nat)
    requires d.Sized() && d.top < d.bottom
    ensures DeleteCharacters(d, n) == RawPuts(Moved(d, n), SPACE, n).(cx := d.X(), cy := d.Y())
  {
    hide RawPuts, CloseGap;
  }

  /** The line of DCH once the blanks are written. */
  lemma GapClosed(d: Display, n: nat)
    requires d.Sized() && n <= d.cols - d.X()
    ensures var m := Moved(d, n);
      && m.cy == d.Y() < |m.lines| && (n > 0 ==> m.cx + n == d.cols) && m == d.(lines := m.lines, cx := m.cx, cy := m.cy)
      && |m.lines[m.cy]| == d.cols && m.cy < d.rows
      && (n == 0 ==> Deleted(d, n) == d.(cx := d.X(), cy := d.Y()) && m.lines == d.lines)
      && (n > 0 ==> Deleted(d, n) == d.(cx := d.X(), cy := d.Y(), lines := m.lines[m.cy :=
        m.lines[m.cy][..m.cx] + seq(n, _ => Cell(SPACE, d.fg, d.bg)) + m.lines[m.cy][d.cols..]]))
  {
    var x, y := d.X(), d.Y();
    var closed := CloseGap(d.lines[y], x, n);
    if n > 0 {
      assert SizeSub(d.cols, n) == d.cols - n;
      assert closed[..d.cols - n] + seq(n, _ => Cell(SPACE, d.fg, d.bg)) + closed[d.cols..] == Deleted(d, n).lines[y];
    } else {
      assert closed == d.lines[y] == Deleted(d, n).lines[y];
    }
  }

  /** DCH undoes ICH, up to the characters that ICH pushed off the line. */
  lemma InsertThenDelete(d: Display, n: nat)
    requires d.Sized() && d.top < d.bottom && 1 <= n <= d.cols - d.X()
    ensures var x, y := d.X(), d.Y();
      DeleteCharacters(InsertCharacters(d, n), n)
      == d.(lines := d.lines[y := d.lines[y][..d.cols - n] + seq(n, _ => d.Blank())], cx := x, cy := y)
  {
    hide DeleteCharacters;
    var x, y := d.X(), d.Y();
    var e := InsertCharacters(d, n);
    DeleteFits(e, n);
    var line, gap := d.lines[y], e.lines[y];
    assert gap[..x] == line[..x];
    if x + n < d.cols {
      assert gap[x + n..] == line[x..d.cols - n];
      assert line[..x] + line[x..d.cols - n] == line[..d.cols - n];
    }
  }

  /** A screen full of one character. */
  function Full(cols: nat, rows: nat, top: nat, bottom: nat, cx: nat, cy: nat): Display {
    var colours := seq(8, _ => 0);
    Display(cols, rows, Palette(colours, colours, 0, 0, 0), seq(rows, _ => seq(cols, _ => Cell(0x58, 0, 0))),
            top, bottom, false, true, cx, cy, 0, 0, 0, 0, 0, 0)
  }

  /** No cell of a screen gets another value than its own or the one written. */
  lemma {:induction false} RawPutsValues(d: Display, c: u8, n: nat, x: nat, y: nat)
    requires d.Sized() && d.top < d.bottom && !d.scrollEnabled && x < d.cols && y < d.rows
    ensures var r := RawPuts(d, c, n).lines[y][x]; r == d.lines[y][x] || r == Cell(c, d.fg, d.bg)
    decreases n
  {
    if n > 0 {
      RawPutsValues(d.RawPutchar(c), c, n - 1, x, y);
    }
  }

  /** The first glyph of a run stays written. */
  lemma FirstStays(d: Display, c: u8, n: nat)
    requires d.Sized() && d.top < d.bottom && !d.scrollEnabled && n >= 1
    ensures var e := if d.Wraps() then d.Wrap() else d;
      e.cx < d.cols && e.cy < d.rows ==> RawPuts(d, c, n).lines[e.cy][e.cx] == Cell(c, d.fg, d.bg)
  {
    var e := if d.Wraps() then d.Wrap() else d;
    if e.cx < d.cols && e.cy < d.rows {
      RawPutsValues(d.RawPutchar(c), c, n - 1, e.cx, e.cy);
    }
  }

  /** DCH does what it should on every screen with the cursor in a given column. */
  ghost predicate DeletesRight(cols: nat, x: nat, n: nat) {
    forall d: Display :: d.Valid() && !d.scrollEnabled && d.cols == cols && d.X() == x ==>
      DeleteCharacters(d, n) == Deleted(d, n)
  }

  lemma {:induction false} RawPutsAdd(d: Display, c: u8, m: nat, n: nat)
    requires d.Sized() && d.top < d.bottom
    ensures RawPuts(d, c, m + n) == RawPuts(RawPuts(d, c, m), c, n)
    decreases m
  {
    if m > 0 {
      RawPutsAdd(d.RawPutchar(c), c, m - 1, n);
    }
  }

  /** More glyphs than fit on the line spill to the start of the row that a wrap goes to. */
  lemma Spills(d: Display, c: u8, n: nat)
    requires d.Sized() && d.top < d.bottom && !d.scrollEnabled && d.cx < d.cols && d.cy < d.bottom - 1
    requires n > d.cols - d.cx
    ensures var y := if d.cy + 1 >= d.cols then d.cols - 1 else d.cy + 1;
      y < d.rows && RawPuts(d, c, n).lines[y][0] == Cell(c, d.fg, d.bg)
  {
    var k := d.cols - d.cx;
    RawPutsAdd(d, c, k, n - k);
    RawPutsInLine(d, c, k);
    FirstStays(RawPuts(d, c, k), c, n - k);
    hide RawPuts;
  }

  /** With more characters to delete than the line has, the blanks reach another row. */
  lemma DeleteTooMany(cols: nat, x: nat, n: nat)
    requires x < cols < 0x8000_0000 && n > cols
    ensures !DeletesRight(cols, x, n)
  {
    var y := if cols >= 2 then 0 else 1;
    var spill := if cols >= 2 then 1 else 0;
    var d := Full(cols, 3, 0, 3, x, y);
    assert d.Valid() && d.X() == x && d.Y() == y;
    var moved := d.(lines := d.lines[y := CloseGap(d.lines[y], x, n)]).SetCursor(SizeSub(cols, n), y);
    Spills(moved, SPACE, n);
    assert DeleteCharacters(d, n).lines[spill][0] == Cell(SPACE, 0, 0) != Deleted(d, n).lines[spill][0];
  }

  /** Exactly when the gap fits on the line. */
  lemma DeleteExact(cols: nat, x: nat, n: nat)
    requires x < cols < 0x8000_0000
    ensures DeletesRight(cols, x, n) <==> n <= cols - x
  {
    if n <= cols - x {
      forall d: Display | d.Valid() && !d.scrollEnabled && d.cols == cols && d.X() == x
        ensures DeleteCharacters(d, n) == Deleted(d, n)
      {
        DeleteFits(d, n);
      }
    } else if n <= cols {
      var d := Full(cols, 1, 0, 1, x, 0);
      assert d.Valid() && d.X() == x && d.Y() == 0;
      var moved := d.(lines := d.lines[0 := CloseGap(d.lines[0], x, n)]).SetCursor(SizeSub(cols, n), 0);
      assert moved.cx == cols - n;
      FirstStays(moved, SPACE, n);
      assert DeleteCharacters(d, n).lines[0][cols - n] == Cell(SPACE, 0, 0) != Deleted(d, n).lines[0][cols - n];
    } else {
      DeleteTooMany(cols, x, n);
    }
  }

  // ---- ED 0 (section 8.3.39 of ECMA-48)

  /** What ED 0 should do: blank the cells from the cursor to the end of the screen. */
  function ErasedBelow(d: Display): Display
    requires d.Sized()
  {
    var x, y := d.X(), d.Y();
    d.(lines := d.lines[..y] + [d.lines[y][..x] + seq(d.cols - x, _ => d.Blank())] + seq(d.rows - 1 - y, _ => d.BlankLine()),
       cx := x, cy := y)
  }

  /** A line, and `k` lines, full of one cell. */
  function FullLine(d: Display, c: u8): seq<Cell> {
    seq(d.cols, _ => Cell(c, d.fg, d.bg))
  }

  function FullLines(d: Display, c: u8, k: nat): seq<seq<Cell>> {
    seq(k, _ => FullLine(d, c))
  }

  /** From a full line, one line's worth of glyphs fills the next line, while wrapping goes there. */
  lemma RawPutsRow(d: Display, c: u8)
    requires d.Sized() && d.top < d.bottom && !d.scrollEnabled
    requires d.cx == d.cols && d.cy + 1 < d.bottom && d.cy + 1 < d.cols
    ensures RawPuts(d, c, d.cols) == d.(cy := d.cy + 1, lines := d.lines[d.cy + 1 := FullLine(d, c)])
  {
    hide *;
    var e := d.(cx := 0, cy := d.cy + 1);
    WrapsFirst(d, c, d.cols);
    RawPutsInLine(e, c, d.cols);
    WholeLine(d, d.lines[d.cy + 1], c);
  }

  lemma WrapsFirst(d: Display, c: u8, n: nat)
    requires d.Sized() && d.top < d.bottom && !d.scrollEnabled && n >= 1
    requires d.cx == d.cols && d.cy + 1 < d.bottom && d.cy + 1 < d.cols
    ensures d.(cx := 0, cy := d.cy + 1).Sized() && d.cy + 1 < d.rows == |d.lines| && |d.lines[d.cy + 1]| == d.cols >= 1
    ensures RawPuts(d, c, n) == RawPuts(d.(cx := 0, cy := d.cy + 1), c, n)
  {
    var e := d.(cx := 0, cy := d.cy + 1);
    assert d.RawPutchar(c) == e.RawPutchar(c);
  }

  lemma WholeLine(d: Display, line: seq<Cell>, c: u8)
    requires |line| == d.cols
    ensures line[..0] + seq(d.cols, _ => Cell(c, d.fg, d.bg)) + line[d.cols..] == FullLine(d, c)
  {
  }

  /** The same for `k` lines. */
  lemma {:induction false} RawPutsRows(d: Display, c: u8, k: nat)
    requires d.Sized() && d.top < d.bottom && !d.scrollEnabled
    requires d.cx == d.cols && d.cy + k < d.bottom && d.cy + k < d.cols
    ensures RawPuts(d, c, Times(k, d.cols))
         == d.(cy := d.cy + k, lines := d.lines[..d.cy + 1] + FullLines(d, c, k) + d.lines[d.cy + 1 + k..])
    decreases k
  {
    hide *;
    TimesNext(d, k);
    if k == 0 {
      NoRow(d, c);
    } else {
      RawPutsAdd(d, c, d.cols, Times(k - 1, d.cols));
      RawPutsRow(d, c);
      RawPutsRows(RawPuts(d, c, d.cols), c, k - 1);
      JoinLines(d, c, k);
      SameFullLines(d, RawPuts(d, c, d.cols), c, k - 1);
    }
  }

  lemma TimesNext(d: Display, k: nat)
    requires d.Sized() && d.cy + k < d.bottom
    ensures Times(k, d.cols) == if k == 0 then 0 else d.cols + Times(k - 1, d.cols)
    ensures d.cy + k < d.rows && |d.lines| == d.rows
  {
    if k > 0 {
      Arithmetic.MulStep(d.cols, k - 1);
    }
  }

  lemma NoRow(d: Display, c: u8)
    requires d.Sized() && d.top < d.bottom && d.cy < d.rows
    ensures RawPuts(d, c, 0) == d && d.lines[..d.cy + 1] + FullLines(d, c, 0) + d.lines[d.cy + 1..] == d.lines
  {
    assert FullLines(d, c, 0) == [];
  }

  lemma SameFullLines(d: Display, e: Display, c: u8, k: nat)
    requires e.cols == d.cols && e.fg == d.fg && e.bg == d.bg
    ensures FullLines(e, c, k) == FullLines(d, c, k)
  {
    assert FullLine(e, c) == FullLine(d, c);
  }

  lemma JoinLines(d: Display, c: u8, k: nat)
    requires |d.lines| == d.rows && d.cy + k < d.rows && k >= 1
    ensures var lines := d.lines[d.cy + 1 := FullLine(d, c)];
      lines[..d.cy + 2] + FullLines(d, c, k - 1) + lines[d.cy + 1 + k..]
      == d.lines[..d.cy + 1] + FullLines(d, c, k) + d.lines[d.cy + 1 + k..]
  {
    hide FullLine;
  }

  /** ED 0 is right in the last row, and above it when wrapping reaches every later row. */
  lemma ErasesBelow(d: Display)
    requires d.Sized() && d.top < d.bottom && !d.scrollEnabled && d.cx < d.cols && d.cy < d.rows
    requires d.cy == d.rows - 1 || (d.bottom == d.rows && d.rows <= d.cols)
    ensures EraseDisplay(d, 0) == ErasedBelow(d)
  {
    var k, m := d.rows - 1 - d.cy, d.cols - d.cx;
    assert Times(0, d.cols) == 0;
    hide Times, FullLine, FullLines, Display.RawPutchar;
    RawPutsAdd(d, SPACE, m, Times(k, d.cols));
    RawPutsInLine(d, SPACE, m);
    hide RawPuts;
    var d1 := RawPuts(d, SPACE, m);
    if k > 0 {
      RawPutsRows(d1, SPACE, k);
    }
    SameFullLines(d, d1, SPACE, k);
    EraseJoin(d);
    assert ErasedBelow(d) == d.(lines := ErasedBelow(d).lines);
    hide ErasedBelow;
  }

  lemma EraseJoin(d: Display)
    requires d.Sized() && d.cx < d.cols && d.cy < d.rows
    ensures var k, m, line := d.rows - 1 - d.cy, d.cols - d.cx, d.lines[d.cy];
      var lines := d.lines[d.cy := line[..d.cx] + seq(m, _ => Cell(SPACE, d.fg, d.bg)) + line[d.cx + m..]];
      lines[..d.cy + 1] + FullLines(d, SPACE, k) + lines[d.cy + 1 + k..] == ErasedBelow(d).lines
  {
    var k, m, line := d.rows - 1 - d.cy, d.cols - d.cx, d.lines[d.cy];
    assert line[d.cx + m..] == [];
    assert line[..d.cx] + seq(m, _ => Cell(SPACE, d.fg, d.bg)) + [] == line[..d.cx] + seq(m, _ => d.Blank());
    assert FullLine(d, SPACE) == d.BlankLine();
    assert FullLines(d, SPACE, k) == seq(k, _ => d.BlankLine());
  }

  /** A row that wrapping cannot reach keeps its cells: the last one, when the region ends above it or
      there are more rows than columns. */
  lemma {:induction false} LastRowKept(d: Display, c: u8, n: nat)
    requires d.Sized() && d.top < d.bottom && !d.scrollEnabled && d.cy < d.rows - 1
    requires d.bottom < d.rows || d.rows > d.cols
    ensures RawPuts(d, c, n).lines[d.rows - 1] == d.lines[d.rows - 1]
    decreases n
  {
    if n > 0 {
      LastRowKept(d.RawPutchar(c), c, n - 1);
    }
  }

  /** Rows above the cursor keep their cells while the row clamp cannot lead back to them. */
  lemma {:induction false} RowAboveKept(d: Display, c: u8, n: nat, y: nat)
    requires d.Sized() && d.top < d.bottom && !d.scrollEnabled && y < d.cy && y < d.cols - 1 && y < d.rows
    ensures RawPuts(d, c, n).lines[y] == d.lines[y]
    decreases n
  {
    if n > 0 {
      RowAboveKept(d.RawPutchar(c), c, n - 1, y);
    }
  }

  /** A full line that does not wrap, and a row below the screen, take no glyph. */
  lemma {:induction false} NothingWritten(d: Display, c: u8, n: nat)
    requires d.Sized() && d.top < d.bottom && !d.scrollEnabled
    requires (d.cx >= d.cols && d.cy >= d.bottom - 1) || d.cy >= d.rows
    ensures RawPuts(d, c, n).lines == d.lines
    decreases n
  {
    if n > 0 {
      NothingWritten(d.RawPutchar(c), c, n - 1);
    }
  }

  /** ED 0 does what it should whatever is on the screen. */
  ghost predicate ErasesRight(cols: nat, rows: nat, top: nat, bottom: nat, cx: nat, cy: nat) {
    forall d: Display ::
      d.Sized() && d.top < d.bottom && !d.scrollEnabled
      && d.cols == cols && d.rows == rows && d.top == top && d.bottom == bottom && d.cx == cx && d.cy == cy ==>
      EraseDisplay(d, 0) == ErasedBelow(d)
  }

  /** Exactly when there is no pending wrap, and either nothing is below the cursor row or the region
      ends at the last row and there are at most as many rows as columns. */
  lemma EraseBelowExact(cols: nat, rows: nat, top: nat, bottom: nat, cx: nat, cy: nat)
    requires 1 <= cols < 0x8000_0000 && 1 <= rows < 0x8000_0000 && top < bottom <= rows
    ensures ErasesRight(cols, rows, top, bottom, cx, cy)
      <==> (cx < cols && cy < rows && (cy == rows - 1 || (bottom == rows && rows <= cols)))
  {
    if cx < cols && cy < rows && (cy == rows - 1 || (bottom == rows && rows <= cols)) {
      forall d: Display |
        d.Sized() && !d.scrollEnabled && d.cols == cols && d.rows == rows && d.top == top && d.bottom == bottom
        && d.cx == cx && d.cy == cy
        ensures EraseDisplay(d, 0) == ErasedBelow(d)
      {
        ErasesBelow(d);
      }
    } else {
      EraseBelowWrong(cols, rows, top, bottom, cx, cy);
    }
  }

  lemma EraseBelowWrong(cols: nat, rows: nat, top: nat, bottom: nat, cx: nat, cy: nat)
    requires 1 <= cols < 0x8000_0000 && 1 <= rows < 0x8000_0000 && top < bottom <= rows
    requires !(cx < cols && cy < rows && (cy == rows - 1 || (bottom == rows && rows <= cols)))
    ensures !ErasesRight(cols, rows, top, bottom, cx, cy)
  {
    var d := Full(cols, rows, top, bottom, cx, cy);
    var x, y, n := d.X(), d.Y(), BelowCount(d);
    if (cx >= cols && cy >= bottom - 1) || cy >= rows {
      NothingWritten(d, SPACE, n);
      NotErased(d, y, x);
    } else if cy < rows - 1 && (bottom < rows || rows > cols) {
      LastRowKept(d, SPACE, n);
      NotErased(d, rows - 1, 0);
    } else {
      assert cx >= cols && x == cols - 1 && cy + 1 < cols;
      WrappedAway(d);
      NotErased(d, y, x);
    }
  }

  /** The number of blanks that ED 0 writes. */
  function BelowCount(d: Display): nat
    requires d.Sized()
  {
    Times(d.rows - (d.Y() + 1), d.cols) + (d.cols - (d.X() + 1)) + 1
  }

  lemma WrappedAway(d: Display)
    requires d.Sized() && d.top < d.bottom && !d.scrollEnabled
    requires d.cx >= d.cols && d.cy + 1 < d.bottom && d.cy + 1 < d.cols
    ensures RawPuts(d, SPACE, BelowCount(d)).lines[d.cy] == d.lines[d.cy]
  {
    var e := d.RawPutchar(SPACE);
    assert e.cy == d.cy + 1 && e.lines[d.cy] == d.lines[d.cy];
    RowAboveKept(e, SPACE, BelowCount(d) - 1, d.cy);
    assert RawPuts(d, SPACE, BelowCount(d)) == RawPuts(e, SPACE, BelowCount(d) - 1);
    hide RawPuts, Times;
  }

  /** A cell at or after the cursor that is left as it was, and was not blank, refutes ED 0. */
  lemma NotErased(d: Display, y: nat, x: nat)
    requires d.Sized() && d.top < d.bottom && !d.scrollEnabled && x < d.cols && y < d.rows
    requires y > d.Y() || (y == d.Y() && x >= d.X())
    requires |RawPuts(d, SPACE, BelowCount(d)).lines| == d.rows && |RawPuts(d, SPACE, BelowCount(d)).lines[y]| == d.cols
    requires RawPuts(d, SPACE, BelowCount(d)).lines[y][x] != d.Blank()
    ensures !ErasesRight(d.cols, d.rows, d.top, d.bottom, d.cx, d.cy)
  {
    hide *;
    BelowLines(d);
    BelowBlank(d, y, x);
    Refuted(d);
  }

  lemma BelowLines(d: Display)
    requires d.Sized() && d.top < d.bottom
    ensures EraseDisplay(d, 0).lines == RawPuts(d, SPACE, BelowCount(d)).lines
  {
    hide RawPuts, Times;
  }

  lemma BelowBlank(d: Display, y: nat, x: nat)
    requires d.Sized() && x < d.cols && y < d.rows && (y > d.Y() || (y == d.Y() && x >= d.X()))
    ensures |ErasedBelow(d).lines| == d.rows && |ErasedBelow(d).lines[y]| == d.cols && ErasedBelow(d).lines[y][x] == d.Blank()
  {
  }

  lemma Refuted(d: Display)
    requires d.Sized() && d.top < d.bottom && !d.scrollEnabled && EraseDisplay(d, 0) != ErasedBelow(d)
    ensures !ErasesRight(d.cols, d.rows, d.top, d.bottom, d.cx, d.cy)
  {
    hide EraseDisplay, ErasedBelow;
  }
}
