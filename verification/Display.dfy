/**
 The logical screen of the terminal, as a value.

 A `Display` is what the framebuffer backend shows once everything pending has been drawn: the lines
 of cells, the cursor, the current and saved colours, and the scroll margins the backend reads from
 the shared context. The operations are those of the backend's callback table, stated on whole
 lines; `Framebuffer` implements them over its grid, queue and map.
 */
module DisplayModel {
  import opened Words

  /** `struct flanterm_fb_char`. Glyph numbers are stored from bytes, so they fit one. */
  datatype Cell = Cell(c: u8, fg: u32, bg: u32)

  datatype Palette = Palette(
    ansi: seq<u32>, bright: seq<u32>,
    defaultFg: u32, defaultFgBright: u32, defaultBgBright: u32)
  {
    ghost predicate Valid() {
      |ansi| == 8 && |bright| == 8
    }
  }

  /** The colour that lets the canvas show through. */
  const TRANSPARENT: u32 := 0xffff_ffff

  const SPACE: u8 := 0x20

  datatype Display = Display(
    cols: nat, rows: nat, palette: Palette,
    lines: seq<seq<Cell>>,
    top: nat, bottom: nat, scrollEnabled: bool, cursorEnabled: bool,
    cx: nat, cy: nat, fg: u32, bg: u32,
    savedX: nat, savedY: nat, savedFg: u32, savedBg: u32)
  {
    /** Dimensions agree, and the region `[top, bottom)` is inside the screen. */
    ghost predicate Sized() {
      && 1 <= cols < 0x8000_0000 && 1 <= rows < 0x8000_0000
      && palette.Valid()
      && Rectangular(lines, cols, rows)
      && top < rows && bottom <= rows
    }

    static ghost predicate Rectangular(lines: seq<seq<Cell>>, cols: nat, rows: nat) {
      |lines| == rows && forall y :: 0 <= y < rows ==> |lines[y]| == cols
    }

    /** What holds between two bytes: a proper region, and at most one column of pending wrap. */
    ghost predicate Valid() {
      Sized() && top < bottom && cx <= cols && savedX <= cols
    }

    /** Only cells and the cursor differ, and the cursor is at most one past the last column. */
    ghost predicate SameFrame(d: Display) {
      && d.Sized() && d.cx <= cols
      && d == this.(lines := d.lines, cx := d.cx, cy := d.cy)
    }

    /** The same screen, and a display that is valid between two bytes. */
    ghost predicate Kept(d: Display) {
      && d.Valid() && d.cols == cols && d.rows == rows && d.palette == palette && d.scrollEnabled == scrollEnabled
    }

    function Blank(): Cell {
      Cell(SPACE, fg, bg)
    }

    function BlankLine(): seq<Cell> {
      Blanks(cols, fg, bg)
    }

    /** The cursor position reported to the parser, clamped into the grid. */
    function X(): (x: nat)
      requires cols >= 1
      ensures x < cols
    {
      if cx >= cols then cols - 1 else cx
    }

    function Y(): (y: nat)
      requires rows >= 1
      ensures y < rows
    {
      if cy >= rows then rows - 1 else cy
    }

    /** Writes one cell of the screen; a position outside the grid is ignored. */
    function Put(c: Cell, x: nat, y: nat): (r: Display)
      requires Sized()
      ensures r.Sized() && r == this.(lines := r.lines)
    {
      if x >= cols || y >= rows then this else this.(lines := lines[y := lines[y][x := c]])
    }

    /** The region moves up one row; its last row becomes blank. */
    function Scroll(): (r: Display)
      requires Sized() && top < bottom
      ensures r.Sized() && r == this.(lines := r.lines)
    {
      this.(lines := lines[..top] + lines[top + 1..bottom] + [BlankLine()] + lines[bottom..])
    }

    /** The region moves down one row; its first row becomes blank. When the top margin is at or
        below the bottom one, only the top row is blanked. */
    function RevScroll(): (r: Display)
      requires Sized()
      ensures r.Sized() && r == this.(lines := r.lines)
    {
      this.(lines := if top < bottom
                     then lines[..top] + [BlankLine()] + lines[top..bottom - 1] + lines[bottom..]
                     else lines[top := BlankLine()])
    }

    function Clear(move: bool): (r: Display)
      requires Sized()
      ensures cx <= cols ==> SameFrame(r)
    {
      var d := this.(lines := seq(rows, _ => BlankLine()));
      if move then d.(cx := 0, cy := 0) else d
    }

    /** Positions outside the grid go to the last column or row, or to the first one when the
        low 32 bits of the argument are negative as an `int`. */
    function SetCursor(x: nat, y: nat): (r: Display)
      requires cols >= 1 && rows >= 1
      ensures Sized() ==> SameFrame(r)
      ensures r == this.(cx := r.cx, cy := r.cy) && r.cx < cols && r.cy < rows
    {
      this.(cx := Clamp(x, cols), cy := Clamp(y, rows))
    }

    static function Clamp(v: nat, limit: nat): (r: nat)
      requires limit >= 1
      ensures r < limit
      ensures v < limit ==> r == v
    {
      if v < limit then v else if AsInt32(v) < 0 then 0 else limit - 1
    }

    function MoveCharacter(newX: nat, newY: nat, oldX: nat, oldY: nat): (r: Display)
      requires Sized()
      ensures r.Sized() && r == this.(lines := r.lines)
    {
      if oldX >= cols || oldY >= rows || newX >= cols || newY >= rows then this
      else Put(lines[oldY][oldX], newX, newY)
    }

    /** A full line wraps only above the bottom row, or anywhere while scrolling is enabled. */
    predicate Wraps() {
      cx >= cols && (cy < bottom - 1 || scrollEnabled)
    }

    /** The pending wrap of a full line. The row is clamped with the number of columns, as the
        backend does. */
    function Wrap(): (r: Display)
      requires Sized() && top < bottom
      ensures r.Sized() && r == this.(lines := r.lines, cx := 0, cy := r.cy)
    {
      var d := if cy + 1 == bottom then this.(cx := 0).Scroll() else this.(cx := 0, cy := cy + 1);
      if d.cy >= cols then d.(cy := cols - 1) else d
    }

    /** Draws one glyph at the cursor and advances it, after any pending wrap. */
    function RawPutchar(c: u8): (r: Display)
      requires Sized() && top < bottom
      ensures r.Sized() && r == this.(lines := r.lines, cx := r.cx, cy := r.cy)
      ensures cx <= cols && scrollEnabled ==> SameFrame(r)
    {
      var d := if Wraps() then Wrap() else this;
      d.Put(Cell(c, d.fg, d.bg), d.cx, d.cy).(cx := d.cx + 1)
    }

    function SwapPalette(): Display {
      this.(fg := bg, bg := fg)
    }

    function SaveState(): Display {
      this.(savedFg := fg, savedBg := bg, savedX := cx, savedY := cy)
    }

    function RestoreState(): Display {
      this.(fg := savedFg, bg := savedBg, cx := savedX, cy := savedY)
    }
  }

  function Blanks(n: nat, fg: u32, bg: u32): (r: seq<Cell>)
    ensures |r| == n
  {
    seq(n, _ => Cell(SPACE, fg, bg))
  }

  /** `n` calls of `raw_putchar`. */
  function RawPuts(d: Display, c: u8, n: nat): (r: Display)
    requires d.Sized() && d.top < d.bottom
    ensures r.Sized() && r == d.(lines := r.lines, cx := r.cx, cy := r.cy)
    decreases n
  {
    if n == 0 then d else RawPuts(d.RawPutchar(c), c, n - 1)
  }

  /** `n` calls of `scroll`. */
  function Scrolls(d: Display, n: nat): (r: Display)
    requires d.Sized() && d.top < d.bottom
    ensures r.Sized() && r == d.(lines := r.lines)
    decreases n
  {
    if n == 0 then d else Scrolls(d.Scroll(), n - 1)
  }

  /** `n` calls of `revscroll`. */
  function RevScrolls(d: Display, n: nat): (r: Display)
    requires d.Sized()
    ensures r.Sized() && r == d.(lines := r.lines)
    decreases n
  {
    if n == 0 then d else RevScrolls(d.RevScroll(), n - 1)
  }

}
