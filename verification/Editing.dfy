/**
 What the control functions of the terminal do to the screen. Each one is stated on the logical screen
 as a whole: lines are cut and joined, and blanks written with `raw_putchar` are counted.
 */
module Editing {
  import opened Words
  import opened DisplayModel
  import opened Pending

  /** `n` glyphs that fit in the rest of a line fill it from the cursor on. */
  lemma {:induction false} RawPutsInLine(d: Display, c: u8, n: nat)
    requires d.Sized() && d.top < d.bottom && d.cx + n <= d.cols
    ensures RawPuts(d, c, n) == d.(cx := d.cx + n, lines :=
      if d.cy < d.rows
      then d.lines[d.cy := d.lines[d.cy][..d.cx] + seq(n, _ => Cell(c, d.fg, d.bg)) + d.lines[d.cy][d.cx + n..]]
      else d.lines)
    decreases n
  {
    hide *;
    RawPutsIs(d, c, n);
    if n == 0 {
      if d.cy < d.rows {
        NoGap(d.lines[d.cy], d.cx, Cell(c, d.fg, d.bg));
      }
    } else {
      GlyphInLine(d, c);
      RawPutsInLine(d.RawPutchar(c), c, n - 1);
      if d.cy < d.rows {
        OneMore(d.lines[d.cy], d.cx, n, Cell(c, d.fg, d.bg));
      }
    }
  }

  lemma RawPutsIs(d: Display, c: u8, n: nat)
    requires d.Sized() && d.top < d.bottom
    ensures RawPuts(d, c, n) == if n == 0 then d else RawPuts(d.RawPutchar(c), c, n - 1)
    ensures d.cy < d.rows ==> d.cy < |d.lines| && |d.lines[d.cy]| == d.cols
  {
  }

  lemma GlyphInLine(d: Display, c: u8)
    requires d.Sized() && d.top < d.bottom && d.cx < d.cols
    ensures d.cy < d.rows ==> d.cy < |d.lines| && |d.lines[d.cy]| == d.cols
    ensures d.RawPutchar(c) == d.(cx := d.cx + 1, lines :=
      if d.cy < d.rows then d.lines[d.cy := d.lines[d.cy][d.cx := Cell(c, d.fg, d.bg)]] else d.lines)
  {
  }

  lemma NoGap(line: seq<Cell>, x: nat, cell: Cell)
    requires x <= |line|
    ensures line[..x] + seq(0, _ => cell) + line[x..] == line
  {
  }

  lemma OneMore(line: seq<Cell>, x: nat, n: nat, cell: Cell)
    requires n >= 1 && x + n <= |line|
    ensures line[x := cell][..x + 1] + seq(n - 1, _ => cell) + line[x := cell][x + n..] == line[..x] + seq(n, _ => cell) + line[x + n..]
  {
  }

  /** While scrolling is enabled the cursor is never more than one past the last column. */
  lemma {:induction false} RawPutsKept(d: Display, c: u8, n: nat)
    requires d.Sized() && d.top < d.bottom && d.cx <= d.cols && d.scrollEnabled
    ensures d.SameFrame(RawPuts(d, c, n))
    decreases n
  {
    if n > 0 {
      RawPutsKept(d.RawPutchar(c), c, n - 1);
    }
  }

  /** CUU: up, but not out of a scroll region whose margin is on the way. */
  function CursorUp(d: Display, n: nat, x: nat): (r: Display)
    requires d.Sized()
    ensures d.SameFrame(r)
    ensures r == d.(cx := r.cx, cy := r.cy)
  {
    var y := d.Y();
    var dest := if n > y then 0 else y - n;
    var meetsRegion := dest <= d.top <= y || dest <= d.bottom <= y;
    d.SetCursor(x, if meetsRegion && dest < d.top then d.top else dest)
  }

  /** CUD: down, but not out of a scroll region whose margin is on the way. */
  function CursorDown(d: Display, n: nat, x: nat): (r: Display)
    requires d.Sized() && d.top < d.bottom
    ensures d.SameFrame(r)
    ensures r == d.(cx := r.cx, cy := r.cy)
  {
    var y := d.Y();
    var dest := if y + n > d.rows - 1 then d.rows - 1 else y + n;
    var meetsRegion := y <= d.top <= dest || y <= d.bottom <= dest;
    d.SetCursor(x, if meetsRegion && dest >= d.bottom then d.bottom - 1 else dest)
  }

  function CursorForward(d: Display, n: nat): (r: Display)
    requires d.Sized()
    ensures d.SameFrame(r)
    ensures r == d.(cx := r.cx, cy := r.cy)
  {
    d.SetCursor(if d.X() + n > d.cols - 1 then d.cols - 1 else d.X() + n, d.Y())
  }

  function CursorBack(d: Display, n: nat): (r: Display)
    requires d.Sized()
    ensures d.SameFrame(r)
    ensures r == d.(cx := r.cx, cy := r.cy)
  {
    d.SetCursor(if n > d.X() then 0 else d.X() - n, d.Y())
  }

  /** VPA and CHA take a one-based position; zero wraps around and means the last row or column. */
  function OneBased(v: u32, limit: nat): (r: nat)
    requires 1 <= limit < 0x8000_0000
    ensures r < limit
  {
    var zeroBased := (v - 1) % WORD_MODULUS;
    if zeroBased >= limit then limit - 1 else zeroBased
  }

  /** CUP takes a one-based position, where zero means one. */
  function Position(v: u32, limit: nat): (r: nat)
    requires 1 <= limit
    ensures r < limit
  {
    var zeroBased := if v != 0 then v - 1 else 0;
    if zeroBased >= limit then limit - 1 else zeroBased
  }

  /** DL scrolls the whole region, wherever the cursor is. */
  function DeleteLines(d: Display, n: nat): (r: Display)
    requires d.Sized() && d.top < d.bottom
    ensures d.cx <= d.cols ==> d.SameFrame(r)
  {
    Scrolls(d, n)
  }

  /** IL opens lines between the cursor row and the bottom of the region. */
  function InsertLines(d: Display, n: nat): (r: Display)
    requires d.Sized()
    ensures r.Sized() && r == d.(lines := r.lines)
  {
    RevScrolls(d.(top := d.Y()), n).(top := d.top)
  }

  /** A line with `n` blanks inserted at `x`; with no blanks to insert, the rest of it is erased. */
  function OpenGap(line: seq<Cell>, x: nat, n: nat, blank: Cell): (r: seq<Cell>)
    requires x < |line|
    ensures |r| == |line|
  {
    if n == 0 || x + n >= |line| then line[..x] + seq(|line| - x, _ => blank)
    else line[..x] + seq(n, _ => blank) + line[x..|line| - n]
  }

  /** A line whose cells from `x + n` on have moved left to `x`; the vacated ones keep their value. */
  function CloseGap(line: seq<Cell>, x: nat, n: nat): (r: seq<Cell>)
    requires x < |line|
    ensures |r| == |line|
  {
    if x + n >= |line| then line
    else line[..x] + line[x + n..] + line[|line| - n..]
  }

  /** ICH. */
  function InsertCharacters(d: Display, n: nat): (r: Display)
    requires d.Sized()
    ensures d.SameFrame(r)
  {
    var x, y := d.X(), d.Y();
    d.(lines := d.lines[y := OpenGap(d.lines[y], x, n, d.Blank())], cx := x, cy := y)
  }

  /** ECH. */
  function EraseCharacters(d: Display, n: nat): (r: Display)
    requires d.Sized() && d.top < d.bottom
    ensures d.SameFrame(r)
  {
    RawPuts(d, SPACE, n).SetCursor(d.X(), d.Y())
  }

  /** DCH: closes the gap, then writes `n` blanks from `n` columns before the right edge. */
  function DeleteCharacters(d: Display, n: nat): (r: Display)
    requires d.Sized() && d.top < d.bottom
    ensures d.SameFrame(r)
  {
    var x, y := d.X(), d.Y();
    var moved := d.(lines := d.lines[y := CloseGap(d.lines[y], x, n)]).SetCursor(SizeSub(d.cols, n), y);
    RawPuts(moved, SPACE, n).SetCursor(x, y)
  }

  /** ED. */
  function EraseDisplay(d: Display, mode: nat): (r: Display)
    requires d.Sized() && d.top < d.bottom
    ensures d.cx <= d.cols ==> d.SameFrame(r)
  {
    var x, y := d.X(), d.Y();
    if mode == 0 then
      RawPuts(d, SPACE, Times(d.rows - (y + 1), d.cols) + (d.cols - (x + 1)) + 1).SetCursor(x, y)
    else if mode == 1 then
      RawPuts(d.SetCursor(0, 0), SPACE, Index(x, y, d.cols) + 1).SetCursor(x, y)
    else if mode == 2 || mode == 3 then d.Clear(false)
    else d
  }

  /** EL. Erasing the start of the line leaves the cursor cell alone. */
  function EraseLine(d: Display, mode: nat): (r: Display)
    requires d.Sized() && d.top < d.bottom
    ensures d.cx <= d.cols ==> d.SameFrame(r)
  {
    var x, y := d.X(), d.Y();
    if mode == 0 then RawPuts(d, SPACE, d.cols - x).SetCursor(x, y)
    else if mode == 1 then RawPutsInLine(d.SetCursor(0, y), SPACE, x); RawPuts(d.SetCursor(0, y), SPACE, x)
    else if mode == 2 then RawPuts(d.SetCursor(0, y), SPACE, d.cols).SetCursor(x, y)
    else d
  }

  /** DECSTBM: a region that is out of range or shorter than two rows means the whole screen. */
  function SetMargins(d: Display, count: nat, v0: u32, v1: u32): (r: Display)
    requires d.Sized()
    ensures r.top < r.bottom && d.(top := r.top, bottom := r.bottom).SameFrame(r)
  {
    var first, last := if v0 == 0 then 1 else v0, if v1 == 0 then 1 else v1;
    var top := if count > 0 then first - 1 else 0;
    var bottom := if count > 1 then last else d.rows;
    var d' := if top >= d.rows || bottom > d.rows || top >= bottom - 1
              then d.(top := 0, bottom := d.rows) else d.(top := top, bottom := bottom);
    d'.SetCursor(0, 0)
  }

  /** The insertion of one character: the rest of the line moves right, the cell at `x` stays. */
  function ShiftRight(line: seq<Cell>, x: nat): (r: seq<Cell>)
    requires x < |line|
    ensures |r| == |line|
  {
    line[..x + 1] + line[x..|line| - 1]
  }

  function MakeRoom(d: Display): (r: Display)
    requires d.Sized()
    ensures r.Sized() && r == d.(lines := r.lines)
  {
    d.(lines := d.lines[d.Y() := ShiftRight(d.lines[d.Y()], d.X())])
  }

  /** IND and LF: down one row, scrolling at the bottom of the region. */
  function LineFeed(d: Display, x: nat): (r: Display)
    requires d.Sized() && d.top < d.bottom
    ensures d.SameFrame(r)
  {
    var y := d.Y();
    if y == d.bottom - 1 then d.Scroll().SetCursor(x, y) else d.SetCursor(x, y + 1)
  }

  /** RI: up one row, scrolling back at the top of the region. The column is reset. */
  function ReverseLineFeed(d: Display): (r: Display)
    requires d.Sized()
    ensures d.SameFrame(r)
  {
    var y := d.Y();
    if y == d.top then d.RevScroll().SetCursor(0, y) else d.SetCursor(0, SizeSub(y, 1))
  }

  /** HT, with tab stops every eight columns. The stop is compared with the width before it is scaled. */
  function Tab(d: Display): (r: Display)
    requires d.Sized()
    ensures d.SameFrame(r)
    ensures r == d.(cx := r.cx, cy := r.cy)
  {
    if d.X() / 8 + 1 >= d.cols then d.SetCursor(d.cols - 1, d.Y())
    else d.SetCursor((d.X() / 8 + 1) * 8, d.Y())
  }
}
