/**
 What the callbacks of the backend do, cell by cell.
 */
module BackendForms {
  import opened Words
  import opened DisplayModel
  import Arithmetic

  /** Queueing a cell changes that cell alone, and none if it is outside the grid. */
  lemma PutAt(d: Display, c: Cell, x: nat, y: nat, x': nat, y': nat)
    requires d.Sized() && x' < d.cols && y' < d.rows
    ensures d.Put(c, x, y).lines[y'][x'] == if x' == x && y' == y then c else d.lines[y'][x']
  {
  }

  /** A blank row is made of spaces in the current colours. */
  lemma BlankAt(d: Display, x: nat)
    requires x < d.cols
    ensures |d.BlankLine()| == d.cols && d.BlankLine()[x] == d.Blank() == Cell(0x20, d.fg, d.bg)
  {
  }

  /** Scrolling moves the rows of the region up by one, cell by cell, and blanks the last one. */
  lemma ScrollAt(d: Display, y: nat)
    requires d.Sized() && d.top < d.bottom && y < d.rows
    ensures d.Scroll().lines[y]
      == if d.top <= y < d.bottom - 1 then d.lines[y + 1] else if y == d.bottom - 1 then d.BlankLine() else d.lines[y]
    ensures y == d.bottom - 1 ==> forall x :: 0 <= x < d.cols ==> d.Scroll().lines[y][x] == Cell(0x20, d.fg, d.bg)
  {
  }

  lemma RevScrollAt(d: Display, y: nat)
    requires d.Sized() && y < d.rows
    ensures d.RevScroll().lines[y] == if d.top < y < d.bottom then d.lines[y - 1] else if y == d.top then d.BlankLine() else d.lines[y]
    ensures y == d.top ==> forall x :: 0 <= x < d.cols ==> d.RevScroll().lines[y][x] == Cell(0x20, d.fg, d.bg)
  {
  }

  lemma ClearAt(d: Display, move: bool, x: nat, y: nat)
    requires d.Sized() && x < d.cols && y < d.rows
    ensures d.Clear(move).lines[y][x] == Cell(0x20, d.fg, d.bg)
    ensures d.Clear(move) == d.(lines := d.Clear(move).lines, cx := if move then 0 else d.cx, cy := if move then 0 else d.cy)
  {
  }

  /** Positions that are 32-bit numbers, also negative ones that wrapped around as a `size_t`, go to the nearest
      one in the grid. */
  lemma CursorSaturates(d: Display, x: int, y: int)
    requires d.Sized() && -0x8000_0000 <= x < 0x8000_0000 && -0x8000_0000 <= y < 0x8000_0000
    ensures d.SetCursor(x % SIZE_MODULUS, y % SIZE_MODULUS)
      == d.(cx := Arithmetic.Max(0, Arithmetic.Min(x, d.cols - 1)), cy := Arithmetic.Max(0, Arithmetic.Min(y, d.rows - 1)))
  {
    Saturates(x, d.cols);
    Saturates(y, d.rows);
    hide Display.Clamp;
  }

  lemma Saturates(v: int, limit: nat)
    requires 1 <= limit < 0x8000_0000 && -0x8000_0000 <= v < 0x8000_0000
    ensures Display.Clamp(v % SIZE_MODULUS, limit) == Arithmetic.Max(0, Arithmetic.Min(v, limit - 1))
  {
    if v < 0 {
      assert v % SIZE_MODULUS == v + SIZE_MODULUS;
      assert (v + SIZE_MODULUS) % WORD_MODULUS == v + WORD_MODULUS;
    } else {
      assert v % SIZE_MODULUS == v && v % WORD_MODULUS == v;
    }
  }

  /** Setting the reported position back changes nothing exactly when the cursor is in the grid: the report hides
      a pending wrap. */
  lemma ReportThenSet(d: Display)
    requires d.Sized()
    ensures d.SetCursor(d.X(), d.Y()) == d <==> d.cx < d.cols && d.cy < d.rows
    ensures d.SetCursor(d.X(), d.Y()).X() == d.X() && d.SetCursor(d.X(), d.Y()).Y() == d.Y()
  {
  }

  /** A cell is copied inside the grid, also onto itself, and nothing is copied into it or out of it. */
  lemma MoveAt(d: Display, newX: nat, newY: nat, oldX: nat, oldY: nat, x: nat, y: nat)
    requires d.Sized() && x < d.cols && y < d.rows
    ensures d.MoveCharacter(newX, newY, oldX, oldY).lines[y][x]
      == if x == newX && y == newY && oldX < d.cols && oldY < d.rows then d.lines[oldY][oldX] else d.lines[y][x]
  {
  }

  /** A glyph is drawn at the cursor, or after a pending wrap in the first column of the row below, which is the
      last row of a scrolled region, or row `cols - 1` if there are more rows than that above. */
  lemma GlyphAt(d: Display, c: u8, x: nat, y: nat)
    requires d.Sized() && d.top < d.bottom && x < d.cols && y < d.rows
    ensures var r, scrolls := d.RawPutchar(c), d.Wraps() && d.cy + 1 == d.bottom;
      var cx := if d.Wraps() then 0 else d.cx;
      var cy := if d.Wraps() then Arithmetic.Min(if scrolls then d.cy else d.cy + 1, d.cols - 1) else d.cy;
      && r.cx == cx + 1 && r.cy == cy
      && r.lines[y][x] == if x == cx && y == cy then Cell(c, d.fg, d.bg) else (if scrolls then d.Scroll() else d).lines[y][x]
  {
    var e := if d.Wraps() then d.Wrap() else d;
    WrapForm(d);
    PutAt(e, Cell(c, e.fg, e.bg), e.cx, e.cy, x, y);
    hide Display.Scroll, Display.Put, Display.Wrap;
  }

  lemma WrapForm(d: Display)
    requires d.Sized() && d.top < d.bottom
    ensures var scrolls := d.cy + 1 == d.bottom;
      d.Wrap() == (if scrolls then d.Scroll() else d).(cx := 0, cy := Arithmetic.Min(if scrolls then d.cy else d.cy + 1, d.cols - 1))
  {
    assert d.(cx := 0).Scroll() == d.Scroll().(cx := 0);
    hide Display.Scroll;
  }
}
