/**
 Closed forms of the remaining controls, and where the code differs from them: cursor movement, tabulation,
 line insertion, and erasure in a line, of characters and above the cursor.
 */
module ControlForms {
  import opened Words
  import opened DisplayModel
  import opened Pending
  import opened Editing
  import opened EditingForms
  import Arithmetic
  import BackendForms

  // ---- Cursor movement (sections 8.3.22, 8.3.19 and 8.3.60 of ECMA-48)

  /** CUU stops at the top margin if it starts at or below it, else at the first row. */
  lemma CursorUpForm(d: Display, n: nat, x: nat)
    requires d.Valid() && x < d.cols
    ensures CursorUp(d, n, x) == d.(cx := x, cy := Arithmetic.Max(d.Y() - n, if d.Y() >= d.top then d.top else 0))
  {
  }

  /** CUD stops at the bottom margin if it starts above it, else at the last row; from the row just below the
      region it jumps up into the region. */
  lemma CursorDownForm(d: Display, n: nat, x: nat)
    requires d.Valid() && x < d.cols
    ensures CursorDown(d, n, x) == d.(cx := x, cy :=
      if d.Y() < d.bottom then Arithmetic.Min(d.Y() + n, d.bottom - 1)
      else if d.Y() == d.bottom then d.bottom - 1
      else Arithmetic.Min(d.Y() + n, d.rows - 1))
  {
  }

  /** CUD never moves up, exactly when the cursor is not on that row. */
  lemma CursorDownExact(d: Display, n: nat, x: nat)
    requires d.Valid() && x < d.cols
    ensures CursorDown(d, n, x).cy >= d.Y() <==> d.Y() != d.bottom
  {
    CursorDownForm(d, n, x);
  }

  /** CUF stops at the last column, and CUB at the first one. */
  lemma CursorForwardForm(d: Display, n: nat)
    requires d.Sized()
    ensures CursorForward(d, n) == d.(cx := Arithmetic.Min(d.X() + n, d.cols - 1), cy := d.Y())
    ensures CursorBack(d, n) == d.(cx := Arithmetic.Max(d.X() - n, 0), cy := d.Y())
  {
  }

  /** CUB undoes CUF exactly when neither stops short. */
  lemma ForwardThenBack(d: Display, n: nat)
    requires d.Sized()
    ensures CursorBack(CursorForward(d, n), n) == d.SetCursor(d.X(), d.Y()) <==> d.X() + n < d.cols || d.X() == 0
  {
  }

  /** The positions of VPA, CHA and CUP count from one, and larger ones mean the last row or column. */
  lemma PositionsReached(v: u32, limit: nat)
    requires 1 <= limit < 0x8000_0000
    ensures v >= 1 ==> OneBased(v, limit) == Position(v, limit) == Arithmetic.Min(v, limit) - 1
    ensures OneBased(0, limit) == limit - 1 && Position(0, limit) == 0
  {
  }

  /** HT goes to the next multiple of eight or the last column, except that a stop at column 2^31 is taken for
      a negative position. */
  lemma TabExact(d: Display)
    requires d.Valid()
    ensures Tab(d) == d.(cx := Tab(d).cx, cy := d.Y())
    ensures Tab(d).cx == Arithmetic.Min((d.X() / 8 + 1) * 8, d.cols - 1) <==> (d.X() / 8 + 1) * 8 < 0x8000_0000
  {
  }

  /** LF in the last row of the region keeps the row and scrolls, elsewhere it moves down one row at most. */
  lemma LineFeedForm(d: Display, x: nat)
    requires d.Valid() && x < d.cols
    ensures var y := d.Y();
      LineFeed(d, x) == if y == d.bottom - 1 then d.Scroll().(cx := x, cy := y)
                        else d.(cx := x, cy := Arithmetic.Min(y + 1, d.rows - 1))
  {
    hide Display.Scroll;
  }

  /** RI in the first row of the region keeps the row and scrolls back, elsewhere it moves up one row at most. */
  lemma ReverseLineFeedForm(d: Display)
    requires d.Valid()
    ensures var y := d.Y();
      ReverseLineFeed(d) == if y == d.top then d.RevScroll().(cx := 0, cy := y) else d.(cx := 0, cy := Arithmetic.Max(y - 1, 0))
  {
    hide Display.RevScroll;
  }

  // ---- IL (section 8.3.67 of ECMA-48)

  function BlankLines(d: Display, k: nat): seq<seq<Cell>> {
    seq(k, _ => d.BlankLine())
  }

  /** Lines with `k` blank ones inserted at `y`, inside a region that ends at `bottom`. */
  function Inserted(d: Display, y: nat, k: nat): seq<seq<Cell>>
    requires d.Sized() && y + k <= d.bottom
  {
    d.lines[..y] + BlankLines(d, k) + d.lines[y..d.bottom - k] + d.lines[d.bottom..]
  }

  lemma InsertedNext(d: Display, k: nat)
    requires d.Sized() && d.top + k <= d.bottom && d.top < d.bottom
    ensures Inserted(d.RevScroll(), d.top, k) == if d.top + k < d.bottom then Inserted(d, d.top, k + 1) else Inserted(d, d.top, k)
  {
    hide Display.RevScroll, BlankLines;
    OutsideKept(d);
    BlankLinesNext(d, k);
    if d.top + k < d.bottom {
      MovedDown(d, k);
    }
  }

  lemma BlankLinesNext(d: Display, k: nat)
    requires d.Sized()
    ensures BlankLines(d.RevScroll(), k) == BlankLines(d, k) && BlankLines(d, k) + [d.BlankLine()] == BlankLines(d, k + 1)
  {
    hide Display.RevScroll;
  }

  lemma OutsideKept(d: Display)
    requires d.Sized() && d.top < d.bottom
    ensures var lines := d.RevScroll().lines; lines[..d.top] == d.lines[..d.top] && lines[d.bottom..] == d.lines[d.bottom..]
  {
    hide Display.RevScroll;
    forall y: nat | y < d.rows && !(d.top <= y < d.bottom) ensures d.RevScroll().lines[y] == d.lines[y] {
      BackendForms.RevScrollAt(d, y);
    }
  }

  lemma MovedDown(d: Display, k: nat)
    requires d.Sized() && d.top + k < d.bottom
    ensures d.RevScroll().lines[d.top..d.bottom - k] == [d.BlankLine()] + d.lines[d.top..d.bottom - (k + 1)]
  {
    hide Display.RevScroll;
    var before, after := [d.BlankLine()] + d.lines[d.top..d.bottom - (k + 1)], d.RevScroll().lines[d.top..d.bottom - k];
    forall i | 0 <= i < |before| ensures after[i] == before[i] {
      BackendForms.RevScrollAt(d, d.top + i);
    }
  }

  lemma InsertedNone(d: Display)
    requires d.Sized() && d.top < d.bottom
    ensures Inserted(d, d.top, 0) == d.lines
  {
    assert BlankLines(d, 0) == [];
    assert d.lines == d.lines[..d.top] + [] + d.lines[d.top..d.bottom] + d.lines[d.bottom..];
  }

  lemma RevScrollsUnfold(d: Display, n: nat)
    requires d.Sized()
    ensures d.bottom <= d.rows
    ensures RevScrolls(d, n) == if n == 0 then d else RevScrolls(d.RevScroll(), n - 1)
  {
  }

  lemma {:induction false} RevScrollsForm(d: Display, n: nat)
    requires d.Sized() && d.top < d.bottom
    ensures RevScrolls(d, n).lines == Inserted(d, d.top, Arithmetic.Min(n, d.bottom - d.top))
    decreases n
  {
    hide *;
    RevScrollsUnfold(d, n);
    MinIs(n, d.bottom - d.top);
    if n == 0 {
      InsertedNone(d);
    } else {
      MinIs(n - 1, d.bottom - d.top);
      RevScrollsForm(d.RevScroll(), n - 1);
      InsertedNext(d, Arithmetic.Min(n - 1, d.bottom - d.top));
    }
  }

  lemma MinIs(a: int, b: int)
    ensures Arithmetic.Min(a, b) == if a < b then a else b
  {
  }

  /** IL above the bottom margin opens lines at the cursor row, and the lines below move down to the margin. */
  lemma InsertLinesForm(d: Display, n: nat)
    requires d.Valid() && d.Y() < d.bottom
    ensures InsertLines(d, n) == d.(lines := Inserted(d, d.Y(), Arithmetic.Min(n, d.bottom - d.Y())))
  {
    RevScrollsForm(d.(top := d.Y()), n);
    hide RevScrolls;
  }

  /** IL at or below the bottom margin blanks the cursor row. */
  lemma InsertLinesBelow(d: Display, n: nat)
    requires d.Valid() && d.Y() >= d.bottom
    ensures InsertLines(d, n) == if n == 0 then d else d.(lines := d.lines[d.Y() := d.BlankLine()])
  {
    hide Display.RevScroll;
    RevScrollsBlank(d.(top := d.Y()), n);
    hide RevScrolls;
  }

  /** There it should do nothing, which it does exactly when it is given no line or the row is blank already. */
  lemma InsertBelowExact(d: Display, n: nat)
    requires d.Valid() && d.Y() >= d.bottom
    ensures InsertLines(d, n) == d <==> n == 0 || d.lines[d.Y()] == d.BlankLine()
  {
    InsertLinesBelow(d, n);
    hide InsertLines;
    assert d.lines[d.Y() := d.BlankLine()][d.Y()] == d.BlankLine();
    if d.lines[d.Y()] == d.BlankLine() {
      assert d.lines[d.Y() := d.BlankLine()] == d.lines;
    }
  }

  /** So it fails on every full screen with a row below the region. */
  lemma InsertBelowFails(cols: nat, rows: nat, top: nat, bottom: nat, cx: nat, cy: nat, n: nat)
    requires 1 <= cols < 0x8000_0000 && 1 <= rows < 0x8000_0000 && top < bottom <= cy < rows && cx <= cols && n >= 1
    ensures var d := Full(cols, rows, top, bottom, cx, cy); InsertLines(d, n) != d
  {
    var d := Full(cols, rows, top, bottom, cx, cy);
    assert d.lines[cy][0] != d.BlankLine()[0];
    InsertBelowExact(d, n);
    hide InsertLines;
  }

  /** What IL should do: open lines at the cursor row inside the region, and nothing outside it. */
  function LinesInserted(d: Display, n: nat): seq<seq<Cell>>
    requires d.Sized()
  {
    if d.top <= d.Y() < d.bottom then Inserted(d, d.Y(), Arithmetic.Min(n, d.bottom - d.Y())) else d.lines
  }

  /** IL does what it should on every screen with the cursor in a given row. */
  ghost predicate InsertsLines(cols: nat, rows: nat, top: nat, bottom: nat, cy: nat, n: nat) {
    forall d: Display ::
      d.Valid() && d.cols == cols && d.rows == rows && d.top == top && d.bottom == bottom && d.cy == cy ==>
      InsertLines(d, n).lines == LinesInserted(d, n)
  }

  /** Exactly with the cursor in the region: above it, too, lines are pushed down to the bottom margin. */
  lemma InsertLinesExact(cols: nat, rows: nat, top: nat, bottom: nat, cy: nat, n: nat)
    requires 1 <= cols < 0x8000_0000 && 1 <= rows < 0x8000_0000 && top < bottom <= rows
    ensures InsertsLines(cols, rows, top, bottom, cy, n) <==> n == 0 || top <= Arithmetic.Min(cy, rows - 1) < bottom
  {
    hide InsertLines, LinesInserted;
    if n == 0 || top <= Arithmetic.Min(cy, rows - 1) < bottom {
      forall d: Display | d.Valid() && d.cols == cols && d.rows == rows && d.top == top && d.bottom == bottom && d.cy == cy
        ensures InsertLines(d, n).lines == LinesInserted(d, n)
      {
        InsertsInRegion(d, n);
      }
    } else {
      var d := Full(cols, rows, top, bottom, 0, cy);
      assert d.lines[d.Y()][0] == Cell(0x58, 0, 0) != d.BlankLine()[0];
      InsertedOutside(d, n);
    }
  }

  lemma InsertsInRegion(d: Display, n: nat)
    requires d.Valid() && (n == 0 || d.top <= d.Y() < d.bottom)
    ensures InsertLines(d, n).lines == LinesInserted(d, n)
  {
    if d.Y() < d.bottom {
      InsertLinesForm(d, n);
      InsertedNone(d.(top := d.Y()));
      assert Inserted(d.(top := d.Y()), d.Y(), 0) == Inserted(d, d.Y(), 0);
    } else {
      InsertLinesBelow(d, n);
    }
    hide InsertLines, Inserted;
  }

  lemma InsertedOutside(d: Display, n: nat)
    requires d.Valid() && n >= 1 && !(d.top <= d.Y() < d.bottom) && d.lines[d.Y()] != d.BlankLine()
    ensures InsertLines(d, n).lines != LinesInserted(d, n)
  {
    if d.Y() < d.bottom {
      InsertLinesForm(d, n);
      assert Inserted(d, d.Y(), Arithmetic.Min(n, d.bottom - d.Y()))[d.Y()] == d.BlankLine();
    } else {
      InsertLinesBelow(d, n);
    }
    hide InsertLines;
  }

  lemma {:induction false} RevScrollsBlank(d: Display, n: nat)
    requires d.Sized() && d.top >= d.bottom
    ensures RevScrolls(d, n).lines == if n == 0 then d.lines else d.lines[d.top := d.BlankLine()]
    decreases n
  {
    if n > 0 {
      RevScrollsBlank(d.RevScroll(), n - 1);
    }
  }

  // ---- DL (section 8.3.32 of ECMA-48)

  /** What DL should do: inside the region the lines below the deleted ones move up to the cursor row, and outside it
      nothing happens. */
  function LinesDeleted(d: Display, n: nat): seq<seq<Cell>>
    requires d.Sized() && d.top < d.bottom
  {
    if d.top <= d.Y() < d.bottom then ScrolledBy(d.(top := d.Y()), Arithmetic.Min(n, d.bottom - d.Y())) else d.lines
  }

  /** DL does what it should on every screen with the cursor in a given row. */
  ghost predicate DeletesLines(cols: nat, rows: nat, top: nat, bottom: nat, cy: nat, n: nat) {
    forall d: Display ::
      d.Valid() && d.cols == cols && d.rows == rows && d.top == top && d.bottom == bottom && d.cy == cy ==>
      DeleteLines(d, n).lines == LinesDeleted(d, n)
  }

  /** DL deletes the first lines of the region, so it is right exactly with the cursor in the first of them. */
  lemma DeleteLinesExact(cols: nat, rows: nat, top: nat, bottom: nat, cy: nat, n: nat)
    requires 1 <= cols < 0x8000_0000 && 1 <= rows < 0x8000_0000 && top < bottom <= rows
    ensures DeletesLines(cols, rows, top, bottom, cy, n) <==> n == 0 || Arithmetic.Min(cy, rows - 1) == top
  {
    hide DeleteLines, LinesDeleted;
    var y := Arithmetic.Min(cy, rows - 1);
    if n == 0 || y == top {
      forall d: Display | d.Valid() && d.cols == cols && d.rows == rows && d.top == top && d.bottom == bottom && d.cy == cy
        ensures DeleteLines(d, n).lines == LinesDeleted(d, n)
      {
        DeletesFromTop(d, n);
      }
    } else {
      var d := Full(cols, rows, top, bottom, 0, cy);
      assert d.lines[top][0] == Cell(0x58, 0, 0) != d.BlankLine()[0];
      if !(top < y < bottom) {
        DeletedOutside(d, n);
      } else if n >= bottom - top {
        DeletedElsewhere(d, n);
      } else {
        assert d.lines[top + n][0] == Cell(0x58, 0, 0);
        DeletedElsewhere(d.(lines := d.lines[top := d.BlankLine()]), n);
      }
    }
  }

  lemma DeletesFromTop(d: Display, n: nat)
    requires d.Valid() && (d.Y() == d.top || n == 0)
    ensures DeleteLines(d, n).lines == LinesDeleted(d, n)
  {
    ScrollsForm(d, n);
    hide Scrolls;
    ScrolledNone(d);
    if d.top <= d.Y() < d.bottom {
      ScrolledNone(d.(top := d.Y()));
    }
    hide ScrolledBy;
  }

  /** With the cursor further down, the first row of the region should have been kept. */
  lemma DeletedElsewhere(d: Display, n: nat)
    requires d.Valid() && d.top < d.Y() < d.bottom && n >= 1
    requires d.lines[d.top] != if d.top + n < d.bottom then d.lines[d.top + n] else d.BlankLine()
    ensures DeleteLines(d, n).lines != LinesDeleted(d, n)
  {
    ScrollsForm(d, n);
    hide Scrolls;
    assert LinesDeleted(d, n)[d.top] == d.lines[d.top];
  }

  /** With the cursor outside the region, so should its last row. */
  lemma DeletedOutside(d: Display, n: nat)
    requires d.Valid() && !(d.top <= d.Y() < d.bottom) && n >= 1 && d.lines[d.bottom - 1] != d.BlankLine()
    ensures DeleteLines(d, n).lines != LinesDeleted(d, n)
  {
    ScrollsForm(d, n);
    hide Scrolls;
    var k := Arithmetic.Min(n, d.bottom - d.top);
    assert ScrolledBy(d, k)[d.bottom - 1] == d.BlankLine();
  }

  // ---- ECH (section 8.3.38 of ECMA-48)

  /** What ECH should do: blank `n` cells from the cursor, or to the end of the line. */
  function CharactersErased(d: Display, n: nat): Display
    requires d.Sized()
  {
    var x, y := d.X(), d.Y();
    var k := if n > d.cols - x then d.cols - x else n;
    d.(lines := d.lines[y := d.lines[y][..x] + seq(k, _ => d.Blank()) + d.lines[y][x + k..]], cx := x, cy := y)
  }

  lemma EraseCharactersFits(d: Display, n: nat)
    requires d.Sized() && d.top < d.bottom && d.cx + n <= d.cols && d.cy < d.rows
    ensures EraseCharacters(d, n) == CharactersErased(d, n)
  {
    RawPutsInLine(d, SPACE, n);
    hide RawPuts;
    if n == 0 {
      var x, line := d.X(), d.lines[d.Y()];
      assert line[..x] + seq(0, _ => d.Blank()) + line[x..] == line;
    }
  }

  /** ECH does what it should whatever is on the screen. */
  ghost predicate ErasesCharacters(cols: nat, rows: nat, top: nat, bottom: nat, cx: nat, cy: nat, n: nat) {
    forall d: Display ::
      d.Sized() && d.top < d.bottom && !d.scrollEnabled
      && d.cols == cols && d.rows == rows && d.top == top && d.bottom == bottom && d.cx == cx && d.cy == cy ==>
      EraseCharacters(d, n) == CharactersErased(d, n)
  }

  /** The blanks are on the line, or those that are not are lost behind its end, since nothing wraps in the last row of
      the region and below it; or a wrap leads back to the same row, which is erased from its start. */
  predicate Erasable(cols: nat, bottom: nat, cx: nat, cy: nat, n: nat) {
    cx < cols && (cx + n <= cols || cy >= bottom - 1 || (cx == 0 && cy == cols - 1))
  }

  /** Exactly when there is nothing to erase, or the cursor is on the screen and the blanks stay on its line. A pending
      wrap leaves no room for any, except on a screen of one column. */
  lemma EraseCharactersExact(cols: nat, rows: nat, top: nat, bottom: nat, cx: nat, cy: nat, n: nat)
    requires 1 <= cols < 0x8000_0000 && 1 <= rows < 0x8000_0000 && top < bottom <= rows
    ensures ErasesCharacters(cols, rows, top, bottom, cx, cy, n)
      <==> n == 0 || (cy < rows && Erasable(cols, bottom, cx, cy, n)) || (cols == 1 && cx >= 1 && cy == 0 && bottom > 1)
  {
    hide EraseCharacters, CharactersErased;
    if n == 0 || (cy < rows && Erasable(cols, bottom, cx, cy, n)) || (cols == 1 && cx >= 1 && cy == 0 && bottom > 1) {
      forall d: Display | d.Sized() && d.top < d.bottom && !d.scrollEnabled
        && d.cols == cols && d.rows == rows && d.top == top && d.bottom == bottom && d.cx == cx && d.cy == cy
        ensures EraseCharacters(d, n) == CharactersErased(d, n)
      {
        ErasedRight(d, n);
      }
    } else {
      ErasedWrong(Full(cols, rows, top, bottom, cx, cy), n);
    }
  }

  lemma ErasedRight(d: Display, n: nat)
    requires d.Sized() && d.top < d.bottom && !d.scrollEnabled
    requires n == 0 || (d.cy < d.rows && Erasable(d.cols, d.bottom, d.cx, d.cy, n)) || (d.cols == 1 && d.cx >= 1 && d.cy == 0 && d.bottom > 1)
    ensures EraseCharacters(d, n) == CharactersErased(d, n)
  {
    hide EraseCharacters, CharactersErased;
    if n == 0 {
      ErasesNone(d);
    } else if d.cx >= d.cols {
      ErasesOneColumn(d, n);
    } else if d.cx + n <= d.cols {
      EraseCharactersFits(d, n);
    } else {
      ErasesToEnd(d, n);
    }
  }

  lemma ErasesNone(d: Display)
    requires d.Sized() && d.top < d.bottom
    ensures EraseCharacters(d, 0) == CharactersErased(d, 0)
  {
    var x, line := d.X(), d.lines[d.Y()];
    assert line[..x] + seq(0, _ => d.Blank()) + line[x..] == line;
  }

  /** More blanks than the line has room for, which change nothing more. */
  lemma ErasesToEnd(d: Display, n: nat)
    requires d.Sized() && d.top < d.bottom && !d.scrollEnabled && d.cx < d.cols < d.cx + n && d.cy < d.rows
    requires d.cy >= d.bottom - 1 || (d.cx == 0 && d.cy == d.cols - 1)
    ensures EraseCharacters(d, n) == CharactersErased(d, n)
  {
    var k, line := d.cols - d.cx, d.lines[d.cy];
    RawPutsAdd(d, SPACE, k, n - k);
    RawPutsInLine(d, SPACE, k);
    hide RawPuts;
    var e := RawPuts(d, SPACE, k);
    assert line[..d.cx] + seq(k, _ => Cell(SPACE, d.fg, d.bg)) + line[d.cx + k..] == line[..d.cx] + seq(k, _ => d.Blank()) + line[d.cx + k..];
    if d.cy >= d.bottom - 1 {
      NothingWritten(e, SPACE, n - k);
    } else {
      assert e.lines[e.cy] == e.BlankLine();
      StaysBlank(e, n - k);
    }
  }

  /** Blanks change nothing in a blank row that wraps onto itself. */
  lemma {:induction false} StaysBlank(d: Display, n: nat)
    requires d.Sized() && d.top < d.bottom && !d.scrollEnabled && d.cy == d.cols - 1 < d.rows && d.lines[d.cy] == d.BlankLine()
    ensures RawPuts(d, SPACE, n).lines == d.lines
    decreases n
  {
    if n > 0 {
      BlankOnBlank(if d.Wraps() then d.(cx := 0) else d);
      StaysBlank(d.RawPutchar(SPACE), n - 1);
    }
  }

  lemma BlankOnBlank(d: Display)
    requires d.Sized() && d.cy < d.rows && d.lines[d.cy] == d.BlankLine()
    ensures d.Put(d.Blank(), d.cx, d.cy) == d
  {
    if d.cx < d.cols {
      assert d.lines[d.cy][d.cx := d.Blank()] == d.lines[d.cy];
      assert d.lines[d.cy := d.lines[d.cy]] == d.lines;
    }
  }

  lemma ErasesOneColumn(d: Display, n: nat)
    requires d.Sized() && d.top < d.bottom && !d.scrollEnabled && d.cols == 1 && d.cx >= 1 && d.cy == 0 && d.bottom > 1 && n >= 1
    ensures EraseCharacters(d, n) == CharactersErased(d, n)
  {
    var e := d.RawPutchar(SPACE);
    assert RawPuts(d, SPACE, n) == RawPuts(e, SPACE, n - 1);
    hide RawPuts;
    assert d.lines[0][..0] + seq(1, _ => d.Blank()) + d.lines[0][1..] == d.BlankLine() == d.lines[0][0 := d.Blank()];
    assert e.lines == d.lines[0 := d.BlankLine()] && e.cy == 0;
    StaysBlank(e, n - 1);
  }

  lemma ErasedWrong(d: Display, n: nat)
    requires d.Sized() && d.top < d.bottom && !d.scrollEnabled && n >= 1
    requires !(d.cy < d.rows && Erasable(d.cols, d.bottom, d.cx, d.cy, n)) && !(d.cols == 1 && d.cx >= 1 && d.cy == 0 && d.bottom > 1)
    requires forall y, x :: 0 <= y < d.rows && 0 <= x < d.cols ==> d.lines[y][x] == Cell(0x58, 0, 0)
    ensures EraseCharacters(d, n) != CharactersErased(d, n)
  {
    hide EraseCharacters, CharactersErased;
    if d.cy >= d.rows || d.cy >= d.bottom - 1 {
      NotErasedAtAll(d, n);
    } else {
      var y := Arithmetic.Min(d.cy + 1, d.cols - 1);
      assert d.lines[y][0] == Cell(0x58, 0, 0);
      ErasedBeyond(d, n);
    }
  }

  /** Nothing is written with a pending wrap that does not happen, and below the screen. */
  lemma NotErasedAtAll(d: Display, n: nat)
    requires d.Sized() && d.top < d.bottom && !d.scrollEnabled && n >= 1 && (d.cy >= d.rows || (d.cx >= d.cols && d.cy >= d.bottom - 1))
    requires d.lines[d.Y()][d.X()] == Cell(0x58, 0, 0)
    ensures EraseCharacters(d, n) != CharactersErased(d, n)
  {
    NothingWritten(d, SPACE, n);
    hide RawPuts;
    assert CharactersErased(d, n).lines[d.Y()][d.X()] == d.Blank();
  }

  /** A wrap erases the first cell of the row it leads to. */
  lemma ErasedBeyond(d: Display, n: nat)
    requires d.Sized() && d.top < d.bottom && !d.scrollEnabled && d.cy < d.bottom - 1 && n >= 1 && d.cx + n > d.cols
    requires var y := Arithmetic.Min(d.cy + 1, d.cols - 1);
      (y != d.cy || d.X() != 0) && d.lines[y][0] == Cell(0x58, 0, 0)
    ensures EraseCharacters(d, n) != CharactersErased(d, n)
  {
    var y := Arithmetic.Min(d.cy + 1, d.cols - 1);
    if d.cx < d.cols {
      Spills(d, SPACE, n);
    } else {
      FirstStays(d, SPACE, n);
    }
    hide RawPuts;
    assert CharactersErased(d, n).lines[y][0] == d.lines[y][0];
  }

  // ---- EL (section 8.3.41 of ECMA-48)

  /** What EL 0 should do: blank from the cursor to the end of the line. */
  function LineErased(d: Display): Display
    requires d.Sized()
  {
    var x, y := d.X(), d.Y();
    d.(lines := d.lines[y := d.lines[y][..x] + seq(d.cols - x, _ => d.Blank())], cx := x, cy := y)
  }

  lemma EraseLineRight(d: Display)
    requires d.Sized() && d.top < d.bottom && d.cx < d.cols && d.cy < d.rows
    ensures EraseLine(d, 0) == LineErased(d)
  {
    var n, line := d.cols - d.cx, d.lines[d.cy];
    RawPutsInLine(d, SPACE, n);
    hide RawPuts;
    assert line[..d.cx] + seq(n, _ => Cell(SPACE, d.fg, d.bg)) + line[d.cx + n..] == line[..d.cx] + seq(n, _ => d.Blank());
  }

  /** A line whose first `n` cells are blanked. */
  function StartErased(d: Display, line: seq<Cell>, n: nat): seq<Cell>
    requires n <= |line|
  {
    seq(n, _ => d.Blank()) + line[n..]
  }

  lemma RawPutsFromStart(d: Display, n: nat)
    requires d.Sized() && d.top < d.bottom && d.cx == 0 && d.cy < d.rows && n <= d.cols
    ensures RawPuts(d, SPACE, n) == d.(cx := n, lines := d.lines[d.cy := StartErased(d, d.lines[d.cy], n)])
  {
    RawPutsInLine(d, SPACE, n);
    hide RawPuts;
    var line := d.lines[d.cy];
    assert line[..0] + seq(n, _ => Cell(SPACE, d.fg, d.bg)) + line[n..] == StartErased(d, line, n);
  }

  /** EL 1 blanks the line up to the cursor and leaves the cursor cell alone. */
  lemma EraseLineStart(d: Display)
    requires d.Valid()
    ensures var x, y := d.X(), d.Y();
      EraseLine(d, 1) == d.(lines := d.lines[y := StartErased(d, d.lines[y], x)], cx := x, cy := y)
  {
    RawPutsFromStart(d.SetCursor(0, d.Y()), d.X());
    hide RawPuts;
  }

  /** What EL 1 should do: blank the line up to and including the cursor. */
  function LineStartErased(d: Display): Display
    requires d.Sized()
  {
    var x, y := d.X(), d.Y();
    d.(lines := d.lines[y := StartErased(d, d.lines[y], x + 1)], cx := x, cy := y)
  }

  /** EL 1 is right exactly when the cursor cell is blank already. */
  lemma EraseStartExact(d: Display)
    requires d.Valid()
    ensures EraseLine(d, 1) == LineStartErased(d) <==> d.lines[d.Y()][d.X()] == d.Blank()
  {
    EraseLineStart(d);
    hide EraseLine;
    var x, line := d.X(), d.lines[d.Y()];
    assert StartErased(d, line, x)[x] == line[x] && StartErased(d, line, x + 1)[x] == d.Blank();
    if line[x] == d.Blank() {
      assert StartErased(d, line, x) == StartErased(d, line, x + 1);
    }
    hide StartErased;
    assert d.lines[d.Y() := StartErased(d, line, x)][d.Y()] == StartErased(d, line, x);
    assert d.lines[d.Y() := StartErased(d, line, x + 1)][d.Y()] == StartErased(d, line, x + 1);
  }

  /** So it fails on every full screen. */
  lemma EraseStartFails(cols: nat, rows: nat, top: nat, bottom: nat, cx: nat, cy: nat)
    requires 1 <= cols < 0x8000_0000 && 1 <= rows < 0x8000_0000 && top < bottom <= rows && cx <= cols
    ensures var d := Full(cols, rows, top, bottom, cx, cy); EraseLine(d, 1) != LineStartErased(d)
  {
    EraseStartExact(Full(cols, rows, top, bottom, cx, cy));
    hide EraseLine, LineStartErased;
  }

  /** EL 2 blanks the whole line. */
  lemma EraseLineWhole(d: Display)
    requires d.Valid()
    ensures EraseLine(d, 2) == d.(lines := d.lines[d.Y() := d.BlankLine()], cx := d.X(), cy := d.Y())
  {
    RawPutsFromStart(d.SetCursor(0, d.Y()), d.cols);
    hide RawPuts;
    assert StartErased(d, d.lines[d.Y()], d.cols) == d.BlankLine();
  }

  /** EL 0 is right whatever is on the screen. */
  ghost predicate ErasesLine(cols: nat, rows: nat, top: nat, bottom: nat, cx: nat, cy: nat) {
    forall d: Display ::
      d.Sized() && d.top < d.bottom && !d.scrollEnabled
      && d.cols == cols && d.rows == rows && d.top == top && d.bottom == bottom && d.cx == cx && d.cy == cy ==>
      EraseLine(d, 0) == LineErased(d)
  }

  /** With a pending wrap or below the screen, one blank is written elsewhere or not at all. */
  lemma OneBlank(d: Display)
    requires d.Sized() && d.top < d.bottom && !d.scrollEnabled && (d.cx >= d.cols || d.cy >= d.rows)
    ensures d.cx < d.cols || d.cy >= d.rows ==> EraseLine(d, 0).lines == d.lines
    ensures d.cx >= d.cols && d.cy < d.rows ==>
      EraseLine(d, 0).lines == if d.cy < d.bottom - 1 then
        (var y := Arithmetic.Min(d.cy + 1, d.cols - 1); d.lines[y := d.lines[y][0 := d.Blank()]]) else d.lines
  {
    if d.cy >= d.rows {
      NothingWritten(d, SPACE, d.cols - d.X());
      hide RawPuts;
    } else {
      var r := RawPuts(d, SPACE, 1);
      assert r == RawPuts(d.RawPutchar(SPACE), SPACE, 0) == d.RawPutchar(SPACE);
      hide RawPuts;
    }
  }

  /** EL 0 is right exactly when no wrap is pending and the cursor is on the screen, or the screen is one column
      wide and the clamp of the wrap leads back to its first cell. */
  lemma EraseLineExact(cols: nat, rows: nat, top: nat, bottom: nat, cx: nat, cy: nat)
    requires 1 <= cols < 0x8000_0000 && 1 <= rows < 0x8000_0000 && top < bottom <= rows
    ensures ErasesLine(cols, rows, top, bottom, cx, cy)
      <==> (cx < cols && cy < rows) || (cols == 1 && cx >= 1 && cy == 0 && bottom > 1)
  {
    hide EraseLine, LineErased;
    forall d: Display | d.Sized() && d.top < d.bottom && !d.scrollEnabled
      && d.cols == cols && d.rows == rows && d.top == top && d.bottom == bottom && d.cx == cx && d.cy == cy
      && ((cx < cols && cy < rows) || (cols == 1 && cx >= 1 && cy == 0 && bottom > 1))
      ensures EraseLine(d, 0) == LineErased(d)
    {
      if cx < cols && cy < rows {
        EraseLineRight(d);
      } else {
        OneColumn(d);
      }
    }
    if !((cx < cols && cy < rows) || (cols == 1 && cx >= 1 && cy == 0 && bottom > 1)) {
      EraseLineWrong(Full(cols, rows, top, bottom, cx, cy));
    }
  }

  /** Elsewhere it leaves the cursor cell of a full screen as it is. */
  lemma EraseLineWrong(d: Display)
    requires d.Sized() && d.top < d.bottom && !d.scrollEnabled && (d.cx >= d.cols || d.cy >= d.rows)
    requires !(d.cols == 1 && d.cy == 0 && d.bottom > 1)
    requires forall y, x :: 0 <= y < d.rows && 0 <= x < d.cols ==> d.lines[y][x] == Cell(0x58, 0, 0)
    ensures EraseLine(d, 0) != LineErased(d)
  {
    OneBlank(d);
    hide EraseLine;
    assert LineErased(d).lines[d.Y()][d.X()] == d.Blank();
    assert EraseLine(d, 0).lines[d.Y()][d.X()] == Cell(0x58, 0, 0);
  }

  lemma OneColumn(d: Display)
    requires d.Sized() && d.cols == 1 && d.cx >= 1 && d.cy == 0 && d.bottom > 1 && !d.scrollEnabled && d.top < d.bottom
    ensures EraseLine(d, 0) == LineErased(d)
  {
    OneBlank(d);
    hide RawPuts;
    assert d.lines[0][..0] + seq(1, _ => d.Blank()) == d.lines[0][0 := d.Blank()];
  }

  // ---- ED 1 (section 8.3.39 of ECMA-48)

  /** What ED 1 should do: blank every cell up to and including the cursor. */
  function ErasedAbove(d: Display): Display
    requires d.Sized()
  {
    var x, y := d.X(), d.Y();
    d.(cx := x, cy := y, lines := BlankLines(d, y) + [StartErased(d, d.lines[y], x + 1)] + d.lines[y + 1..])
  }

  lemma ErasesAboveWhenReached(d: Display)
    requires d.Sized() && d.top < d.bottom && !d.scrollEnabled && d.Y() < d.bottom && d.Y() < d.cols
    ensures EraseDisplay(d, 1) == ErasedAbove(d)
  {
    hide RawPuts, Times, Index, BlankLines, StartErased;
    if d.Y() == 0 {
      FirstRow(d, d.X());
    } else {
      RowsThenCells(d, d.X(), d.Y());
    }
  }

  lemma FirstRow(d: Display, x: nat)
    requires d.Sized() && d.top < d.bottom && x < d.cols
    ensures var r := RawPuts(d.SetCursor(0, 0), SPACE, Index(x, 0, d.cols) + 1);
      r == d.(cx := r.cx, cy := r.cy, lines := BlankLines(d, 0) + [StartErased(d, d.lines[0], x + 1)] + d.lines[1..])
  {
    assert Index(x, 0, d.cols) == x && BlankLines(d, 0) == [];
    RawPutsFromStart(d.SetCursor(0, 0), x + 1);
    hide RawPuts, StartErased, Index, BlankLines;
    ReplaceRow(d, StartErased(d, d.lines[0], x + 1), 0);
  }

  /** Wrapping does not leave the region, nor go past the row given by the number of columns. */
  lemma {:induction false} UnreachedKept(d: Display, c: u8, n: nat, y: nat)
    requires d.Sized() && d.top < d.bottom && !d.scrollEnabled && d.cy < d.bottom && d.cy < d.cols
    requires y < d.rows && (y >= d.bottom || y >= d.cols)
    ensures RawPuts(d, c, n).lines[y] == d.lines[y]
    decreases n
  {
    if n > 0 {
      UnreachedKept(d.RawPutchar(c), c, n - 1, y);
    }
  }

  lemma NotErasedAbove(d: Display)
    requires d.Sized() && d.top < d.bottom && !d.scrollEnabled && (d.Y() >= d.bottom || d.Y() >= d.cols)
    requires d.lines[d.Y()][d.X()] != d.Blank()
    ensures EraseDisplay(d, 1) != ErasedAbove(d)
  {
    UnreachedKept(d.SetCursor(0, 0), SPACE, Index(d.X(), d.Y(), d.cols) + 1, d.Y());
    hide RawPuts, Index;
    assert ErasedAbove(d).lines[d.Y()][d.X()] == d.Blank();
  }

  /** ED 1 does what it should whatever is on the screen. */
  ghost predicate ErasesAbove(cols: nat, rows: nat, top: nat, bottom: nat, cx: nat, cy: nat) {
    forall d: Display ::
      d.Sized() && d.top < d.bottom && !d.scrollEnabled
      && d.cols == cols && d.rows == rows && d.top == top && d.bottom == bottom && d.cx == cx && d.cy == cy ==>
      EraseDisplay(d, 1) == ErasedAbove(d)
  }

  /** Exactly when the cursor row is above the bottom margin and less than the number of columns. */
  lemma EraseAboveExact(cols: nat, rows: nat, top: nat, bottom: nat, cx: nat, cy: nat)
    requires 1 <= cols < 0x8000_0000 && 1 <= rows < 0x8000_0000 && top < bottom <= rows
    ensures ErasesAbove(cols, rows, top, bottom, cx, cy) <==> Arithmetic.Min(cy, rows - 1) < Arithmetic.Min(bottom, cols)
  {
    hide EraseDisplay, ErasedAbove;
    if Arithmetic.Min(cy, rows - 1) < Arithmetic.Min(bottom, cols) {
      forall d: Display | d.Sized() && d.top < d.bottom && !d.scrollEnabled
        && d.cols == cols && d.rows == rows && d.top == top && d.bottom == bottom && d.cx == cx && d.cy == cy
        ensures EraseDisplay(d, 1) == ErasedAbove(d)
      {
        ErasesAboveWhenReached(d);
      }
    } else {
      NotErasedAbove(Full(cols, rows, top, bottom, cx, cy));
    }
  }

  /** Whole rows, then the start of the cursor row. */
  lemma RowsThenCells(d: Display, x: nat, y: nat)
    requires d.Sized() && d.top < d.bottom && !d.scrollEnabled && x < d.cols && 1 <= y < d.bottom && y < d.cols
    ensures var r := RawPuts(d.SetCursor(0, 0), SPACE, Index(x, y, d.cols) + 1);
      r == d.(cx := r.cx, cy := r.cy, lines := BlankLines(d, y) + [StartErased(d, d.lines[y], x + 1)] + d.lines[y + 1..])
  {
    hide RawPuts, Times, Index, BlankLines;
    var n := d.cols + Times(y - 1, d.cols);
    RowCount(d.cols, x, y);
    RawPutsAdd(d.SetCursor(0, 0), SPACE, n, x + 1);
    WholeRows(d, y);
    var e := RawPuts(d.SetCursor(0, 0), SPACE, n);
    ReplaceRow(d, StartErased(d, d.lines[y], x + 1), y);
    WrapThenCells(e, x + 1);
    assert StartErased(e, d.lines[y], x + 1) == StartErased(d, d.lines[y], x + 1);
  }

  lemma ReplaceRow(d: Display, line: seq<Cell>, y: nat)
    requires d.Sized() && y < d.rows
    ensures |BlankLines(d, y)| == y
    ensures var lines := BlankLines(d, y) + d.lines[y..];
      lines[y] == d.lines[y] && lines[y := line] == BlankLines(d, y) + [line] + d.lines[y + 1..]
  {
  }

  lemma WholeRows(d: Display, y: nat)
    requires d.Sized() && d.top < d.bottom && !d.scrollEnabled && 1 <= y < d.bottom && y < d.cols
    ensures RawPuts(d.SetCursor(0, 0), SPACE, d.cols + Times(y - 1, d.cols))
         == d.(cx := d.cols, cy := y - 1, lines := BlankLines(d, y) + d.lines[y..])
  {
    hide RawPuts, Times, BlankLines;
    var e := d.SetCursor(0, 0);
    RawPutsAdd(e, SPACE, d.cols, Times(y - 1, d.cols));
    RawPutsFromStart(e, d.cols);
    RawPutsRows(RawPuts(e, SPACE, d.cols), SPACE, y - 1);
    assert StartErased(e, d.lines[0], d.cols) == d.BlankLine();
    PushBlankLines(d, RawPuts(e, SPACE, d.cols), y);
  }

  lemma PushBlankLines(d: Display, e: Display, y: nat)
    requires d.Sized() && 1 <= y < d.rows
    requires e.lines == d.lines[0 := d.BlankLine()] && e.cols == d.cols && e.fg == d.fg && e.bg == d.bg
    ensures e.lines[..1] + FullLines(e, SPACE, y - 1) + e.lines[y..] == BlankLines(d, y) + d.lines[y..]
  {
    assert seq(d.cols, _ => Cell(SPACE, d.fg, d.bg)) == d.BlankLine();
    assert FullLines(e, SPACE, y - 1) == BlankLines(d, y - 1);
    assert [d.BlankLine()] + BlankLines(d, y - 1) == BlankLines(d, y);
  }

  lemma RowCount(cols: nat, x: nat, y: nat)
    requires y >= 1
    ensures Index(x, y, cols) + 1 == cols + Times(y - 1, cols) + (x + 1)
  {
    Arithmetic.MulStep(cols, y - 1);
  }

  /** The first glyph wraps to the next row, where the rest follows. */
  lemma WrapThenCells(d: Display, n: nat)
    requires d.Sized() && d.top < d.bottom && !d.scrollEnabled && 1 <= n <= d.cols
    requires d.cx == d.cols && d.cy + 1 < d.bottom && d.cy + 1 < d.cols
    ensures var y := d.cy + 1;
      RawPuts(d, SPACE, n) == d.(cx := n, cy := y, lines := d.lines[y := StartErased(d, d.lines[y], n)])
  {
    var e := d.(cx := 0, cy := d.cy + 1);
    assert d.RawPutchar(SPACE) == e.RawPutchar(SPACE);
    assert RawPuts(d, SPACE, n) == RawPuts(e, SPACE, n);
    hide RawPuts;
    RawPutsFromStart(e, n);
    assert StartErased(e, d.lines[e.cy], n) == StartErased(d, d.lines[e.cy], n);
  }

  // ---- ICH and insert mode (section 8.3.64 of ECMA-48)

  /** What ICH should do: shift the rest of the line right by `n` and blank the gap. */
  function CharactersInserted(d: Display, n: nat): Display
    requires d.Sized()
  {
    var x, y := d.X(), d.Y();
    var k := Arithmetic.Min(n, d.cols - x);
    d.(lines := d.lines[y := d.lines[y][..x] + seq(k, _ => d.Blank()) + d.lines[y][x..d.cols - k]], cx := x, cy := y)
  }

  /** ICH is right exactly when it is given a character to insert, or there is nothing left to erase: its loop
      runs before it looks at the count. */
  lemma InsertCharactersExact(d: Display, n: nat)
    requires d.Sized()
    ensures InsertCharacters(d, n) == CharactersInserted(d, n)
      <==> n >= 1 || forall i :: d.X() <= i < d.cols ==> d.lines[d.Y()][i] == d.Blank()
  {
    var x, line := d.X(), d.lines[d.Y()];
    var k := Arithmetic.Min(n, d.cols - x);
    var actual, ought := OpenGap(line, x, n, d.Blank()), line[..x] + seq(k, _ => d.Blank()) + line[x..d.cols - k];
    if n == 0 {
      assert ought == line;
      assert forall i :: x <= i < d.cols ==> actual[i] == d.Blank();
      assert actual == line <==> forall i :: x <= i < d.cols ==> line[i] == d.Blank();
    } else {
      assert actual == ought;
    }
    hide OpenGap;
    assert d.lines[d.Y() := actual][d.Y()] == actual && d.lines[d.Y() := ought][d.Y()] == ought;
  }

  /** In insert mode a glyph goes between the ones before and after the cursor, and the last one is lost. */
  lemma InsertModeForm(d: Display, c: u8)
    requires d.Sized() && d.top < d.bottom && d.cx < d.cols && d.cy < d.rows
    ensures var line := d.lines[d.cy];
      MakeRoom(d).RawPutchar(c)
      == d.(cx := d.cx + 1, lines := d.lines[d.cy := line[..d.cx] + [Cell(c, d.fg, d.bg)] + line[d.cx..d.cols - 1]])
  {
    var line := d.lines[d.cy];
    assert ShiftRight(line, d.cx)[d.cx := Cell(c, d.fg, d.bg)] == line[..d.cx] + [Cell(c, d.fg, d.bg)] + line[d.cx..d.cols - 1];
  }

  /** With a pending wrap no room is made: the glyph takes the place of the first one of the row it wraps to. */
  lemma InsertModeWraps(d: Display, c: u8)
    requires d.Sized() && d.top < d.bottom && d.scrollEnabled && d.cx >= d.cols && d.cy < d.rows
    ensures MakeRoom(d) == d
    ensures var e := d.Wrap(); MakeRoom(d).RawPutchar(c) == e.Put(Cell(c, d.fg, d.bg), 0, e.cy).(cx := 1)
  {
    assert ShiftRight(d.lines[d.cy], d.cols - 1) == d.lines[d.cy];
    assert d.lines[d.cy := d.lines[d.cy]] == d.lines;
    hide Display.Put, Display.Wrap;
  }

  /** What a glyph should do in insert mode: after any wrap it goes between its neighbours, if it is on the screen. */
  function GlyphInserted(d: Display, c: u8): Display
    requires d.Sized() && d.top < d.bottom
  {
    var e := if d.Wraps() then d.Wrap() else d;
    if e.cx < d.cols && e.cy < d.rows then
      var line := e.lines[e.cy];
      e.(cx := e.cx + 1, lines := e.lines[e.cy := line[..e.cx] + [Cell(c, d.fg, d.bg)] + line[e.cx..d.cols - 1]])
    else e.(cx := e.cx + 1)
  }

  /** A row whose cells are alike from column `x` on. */
  predicate Alike(line: seq<Cell>, x: nat) {
    forall i :: x < i < |line| ==> line[i] == line[x]
  }

  /** Insert mode is right exactly on the screen and without a pending wrap, or when the row that is shifted, or should
      have been, does not show it. */
  lemma InsertModeExact(d: Display, c: u8)
    requires d.Sized() && d.top < d.bottom && d.scrollEnabled
    ensures MakeRoom(d).RawPutchar(c) == GlyphInserted(d, c)
      <==> if d.cx >= d.cols then d.Wrap().cy >= d.rows || Alike(d.Wrap().lines[d.Wrap().cy], 0)
           else d.cy < d.rows || Alike(d.lines[d.rows - 1], d.cx)
  {
    if d.cx >= d.cols {
      WrapInserts(d, c);
    } else if d.cy < d.rows {
      InsertModeForm(d, c);
    } else {
      ShiftsElsewhere(d, c);
    }
    hide MakeRoom, GlyphInserted, Alike, Display.RawPutchar;
  }

  lemma ShiftSeen(line: seq<Cell>, x: nat, cell: Cell)
    requires x < |line|
    ensures ShiftRight(line, x) == line <==> Alike(line, x)
    ensures line[x := cell] == line[..x] + [cell] + line[x..|line| - 1] <==> Alike(line, x)
  {
    var shifted, inserted := ShiftRight(line, x), line[..x] + [cell] + line[x..|line| - 1];
    assert forall i :: x < i < |line| ==> shifted[i] == line[i - 1] == inserted[i];
    if Alike(line, x) {
      assert shifted == line && inserted == line[x := cell];
    } else {
      SomeStep(line, x);
    }
  }

  /** Cells that are not alike differ from their left neighbour somewhere. */
  lemma SomeStep(line: seq<Cell>, x: nat)
    requires x < |line| && !Alike(line, x)
    ensures exists i {:trigger line[i]} :: x < i < |line| && line[i] != line[i - 1]
  {
    if forall i {:trigger line[i]} :: x < i < |line| ==> line[i] == line[i - 1] {
      AllAlike(line, x, |line|);
    }
  }

  lemma {:induction false} AllAlike(line: seq<Cell>, x: nat, n: nat)
    requires x < n <= |line| && forall i {:trigger line[i]} :: x < i < |line| ==> line[i] == line[i - 1]
    ensures forall i :: x < i < n ==> line[i] == line[x]
    decreases n
  {
    if n > x + 1 {
      AllAlike(line, x, n - 1);
    }
  }

  lemma WrapInserts(d: Display, c: u8)
    requires d.Sized() && d.top < d.bottom && d.scrollEnabled && d.cx >= d.cols
    ensures MakeRoom(d).RawPutchar(c) == GlyphInserted(d, c)
      <==> d.Wrap().cy >= d.rows || Alike(d.Wrap().lines[d.Wrap().cy], 0)
  {
    var e, cell := d.Wrap(), Cell(c, d.fg, d.bg);
    var y := d.Y();
    assert ShiftRight(d.lines[y], d.cols - 1) == d.lines[y];
    assert d.lines[y := d.lines[y]] == d.lines;
    assert MakeRoom(d) == d;
    if e.cy < d.rows {
      ShiftSeen(e.lines[e.cy], 0, cell);
      var line := e.lines[e.cy];
      assert e.lines[e.cy := line[0 := cell]][e.cy] == line[0 := cell];
    }
    hide Display.Wrap, MakeRoom, Alike;
  }

  /** Below the screen the last row is shifted, and the glyph is lost. */
  lemma ShiftsElsewhere(d: Display, c: u8)
    requires d.Sized() && d.top < d.bottom && d.cx < d.cols && d.cy >= d.rows
    ensures MakeRoom(d).RawPutchar(c) == GlyphInserted(d, c) <==> Alike(d.lines[d.rows - 1], d.cx)
  {
    var line := d.lines[d.rows - 1];
    ShiftSeen(line, d.cx, Cell(c, d.fg, d.bg));
    hide Alike, ShiftRight;
    assert d.lines[d.rows - 1 := ShiftRight(line, d.cx)] == d.lines <==> ShiftRight(line, d.cx) == line by {
      assert d.lines[d.rows - 1 := ShiftRight(line, d.cx)][d.rows - 1] == ShiftRight(line, d.cx);
    }
  }

  // ---- DECSTBM

  /** Parameters that leave at least two rows of the screen set the region to them, and missing ones do not limit it;
      otherwise the region is the whole screen. The cursor goes home. */
  lemma MarginsForm(d: Display, count: nat, first: u32, last: u32)
    requires d.Sized()
    ensures var from, whole := Arithmetic.Max(first, 1), d.(top := 0, bottom := d.rows, cx := 0, cy := 0);
      SetMargins(d, count, first, last) ==
      if count == 0 then whole
      else if count == 1 then (if from < d.rows then whole.(top := from - 1) else whole)
      else if from < last <= d.rows then whole.(top := from - 1, bottom := last)
      else whole
  {
  }
}
