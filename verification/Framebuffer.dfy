/**
 The framebuffer backend (`src/flanterm/backends/fb.c`): a deferred renderer.

 Every change of a cell goes through a queue; a flush draws the queued cells, repainting only the
 glyph dots that differ where it can, and inverts the cell under the cursor. `State()` is the logical
 screen, `Ready()` the invariant between calls.
 */
module FramebufferBackend {
  import Arithmetic
  import opened Words
  import opened DisplayModel
  import opened Geometry
  import opened Pending
  import opened Shifts
  import opened Drawing

  /** The layout that fits, and what it means for the sizes of font, canvas and framebuffer. */
  lemma FittedArt(width: nat, height: nat, stride: nat, canvas: seq<u32>, font: seq<bool>, fontWidth: nat, fontHeight: nat,
                  scaleX: nat, scaleY: nat, margin: nat)
    requires 1 <= fontWidth && 1 <= fontHeight && 1 <= scaleX && 1 <= scaleY
    requires 2 * margin + fontWidth * scaleX <= width < 0x8000_0000 && width <= stride
    requires 2 * margin + fontHeight * scaleY <= height < 0x8000_0000
    requires |canvas| == height * width && |font| == GLYPHS * fontHeight * fontWidth
    ensures 1 <= fontWidth * scaleX && 1 <= fontHeight * scaleY
    ensures var layout := Fit(width, height, stride, fontWidth, fontHeight, scaleX, scaleY, margin);
      && Art(layout, font, canvas).Valid() && layout.Size() == height * stride
      && layout == Layout(width, height, stride, (width - 2 * margin) / (fontWidth * scaleX), (height - 2 * margin) / (fontHeight * scaleY),
           margin + (width - 2 * margin) % (fontWidth * scaleX) / 2, margin + (height - 2 * margin) % (fontHeight * scaleY) / 2,
           fontWidth, fontHeight, scaleX, scaleY, fontWidth * scaleX, fontHeight * scaleY)
      && 1 <= layout.cols < 0x8000_0000 && 1 <= layout.rows < 0x8000_0000
  {
    FitValid(width, height, stride, fontWidth, fontHeight, scaleX, scaleY, margin);
  }

  lemma NothingLinked(queue: seq<QueueItem>, map_: seq<Slot>, cols: nat, rows: nat)
    requires forall i :: 0 <= i < |map_| ==> map_[i] == Null
    ensures Pending.Linked(queue, 0, map_, cols, rows)
  {
  }

  class Framebuffer {
    const art: Art
    const palette: Palette
    const cols: nat
    const rows: nat
    const framebuffer: array<u32>
    const grid: array<Cell>
    const queue: array<QueueItem>
    const map_: array<Slot>
    var queueI: nat

    var textFg: u32
    var textBg: u32
    var cursorX: nat
    var cursorY: nat
    var savedTextFg: u32
    var savedTextBg: u32
    var savedCursorX: nat
    var savedCursorY: nat
    var oldCursorX: nat
    var oldCursorY: nat

    // The part of the shared terminal context that the backend reads.
    var cursorEnabled: bool
    var scrollEnabled: bool
    var scrollTop: nat
    var scrollBottom: nat

    /** Sizes of the arrays allocated by the constructor. */
    ghost predicate Shape() {
      && art.Valid() && palette.Valid()
      && cols == art.layout.cols && rows == art.layout.rows
      && 1 <= cols < 0x8000_0000 && 1 <= rows < 0x8000_0000
      && framebuffer.Length == art.layout.Size()
      && grid.Length == queue.Length == map_.Length == Times(rows, cols)
    }

    ghost predicate Linked()
      reads this`queueI, queue, map_
    {
      Pending.Linked(queue[..], queueI, map_[..], cols, rows)
    }

    /** The logical screen by linear cell number. */
    ghost function Flat(): (flat: seq<Cell>)
      reads grid, queue, map_
      ensures Shape() ==> |flat| == Times(rows, cols)
    {
      if grid.Length == map_.Length then Overlay(grid[..], queue[..], map_[..]) else []
    }

    ghost function Lines(): (lines: seq<seq<Cell>>)
      reads grid, queue, map_
      ensures Shape() ==> Display.Rectangular(lines, cols, rows)
    {
      if |Flat()| == Times(rows, cols) then Table(Flat(), cols, rows) else []
    }

    /** The logical screen, cursor, colours and margins. */
    ghost function State(): Display
      reads this, grid, queue, map_
    {
      Display(cols, rows, palette, Lines(), scrollTop, scrollBottom, scrollEnabled, cursorEnabled,
              cursorX, cursorY, textFg, textBg, savedCursorX, savedCursorY, savedTextFg, savedTextBg)
    }

    /** The framebuffer shows the grid, except perhaps in the cell of the last drawn cursor. */
    ghost predicate Drawn()
      requires Shape()
      reads this`oldCursorX, this`oldCursorY, grid, framebuffer
    {
      Faithful(art, framebuffer[..], grid[..], None, oldCursorX, oldCursorY)
    }

    /** The cell that a redraw inverts. */
    ghost function ShownCursor(): Option<(nat, nat)>
      reads this`cursorEnabled, this`cursorX, this`cursorY
    {
      if cursorEnabled && cursorX < cols && cursorY < rows then Some((cursorX, cursorY)) else None
    }

    /** The framebuffer is exactly what drawing the logical screen from scratch would leave. */
    ghost predicate Redrawn()
      requires Shape()
      reads this, grid, queue, map_, framebuffer
    {
      forall k {:trigger framebuffer[k]} :: 0 <= k < framebuffer.Length && art.Visible(k) ==>
        framebuffer[k] == art.Render(Lines(), ShownCursor(), k)
    }

    /** The same, pixel by pixel. */
    ghost predicate Shown()
      requires Shape()
      reads this, grid, queue, map_, framebuffer
    {
      PictureShown(framebuffer[..], art.canvas, art.font, art.layout, Lines(), cursorEnabled, cursorX, cursorY)
    }

    lemma ShownWhenRedrawn()
      requires Shape() && Redrawn()
      ensures Shown()
    {
      hide Art.Valid, Art.Render, Art.Visible, PictureShown, Display.Rectangular;
      ghost var pixels, cursor := framebuffer[..], ShownCursor();
      assert Rendered(art, pixels, Lines(), cursor);
      LinesAre();
      RenderShows(art, pixels, Lines(), cursorEnabled, cursorX, cursorY, cursor);
    }

    lemma LinesAre()
      requires Shape()
      ensures |Lines()| == rows == art.layout.rows && cols == art.layout.cols && forall y :: 0 <= y < rows ==> |Lines()[y]| == cols
    {
    }

    /** The invariant between calls. */
    ghost predicate Ready()
      reads this, grid, queue, map_, framebuffer
      ensures Ready() ==> Shape() && State().Sized()
    {
      && Shape() && Linked() && Drawn()
      && scrollTop < rows && scrollBottom <= rows
    }

    /** What the invariant and the logical screen say, part by part. */
    lemma Parts()
      ensures State() == Display(cols, rows, palette, Lines(), scrollTop, scrollBottom, scrollEnabled, cursorEnabled,
                                 cursorX, cursorY, textFg, textBg, savedCursorX, savedCursorY, savedTextFg, savedTextBg)
      ensures Ready() ==> Shape() && Linked() && Drawn() && scrollTop < rows && scrollBottom <= rows && State().Sized()
      ensures Shape() ==> 1 <= cols < 0x8000_0000 && 1 <= rows < 0x8000_0000
      ensures Shape() ==> |Flat()| == Times(rows, cols) && Lines() == Table(Flat(), cols, rows)
      ensures Shape() && Linked() && Drawn() && scrollTop < rows && scrollBottom <= rows ==> Ready()
    {
    }

    lemma PictureParts()
      requires Shape()
      ensures Drawn() <==> Faithful(art, framebuffer[..], grid[..], None, oldCursorX, oldCursorY)
      ensures ShownCursor() == if cursorEnabled && cursorX < cols && cursorY < rows then Some((cursorX, cursorY)) else None
      ensures Linked() <==> Pending.Linked(queue[..], queueI, map_[..], cols, rows)
      ensures Flat() == Overlay(grid[..], queue[..], map_[..])
      ensures Redrawn() <==> forall k {:trigger framebuffer[k]} :: 0 <= k < framebuffer.Length && art.Visible(k) ==>
        framebuffer[k] == art.Render(Lines(), ShownCursor(), k)
    {
    }

    /** Draws one font dot, `scaleX` pixels wide. */
    method DrawDot(ghost pixels: seq<u32>, ghost old_: Option<Cell>, c: Cell, x: nat, y: nat, fx: nat, gy: nat, draw: bool)
      requires Shape() && x < cols && y < rows && fx < art.layout.fontWidth && gy < art.layout.glyphHeight
      requires |pixels| == framebuffer.Length
      requires framebuffer[..] == art.Painting(pixels, old_, c, x, y, art.layout.Column(fx), gy)
      requires draw == FontBit(art, c.c, fx, gy)
      requires old_.Some? ==> FontBit(art, old_.value.c, fx, gy) != draw
      modifies framebuffer
      ensures framebuffer[..] == art.Painting(pixels, old_, c, x, y, art.layout.Column(fx + 1), gy)
    {
      hide Layout.Valid, Layout.LineStart, Layout.CanvasLineStart, Layout.Column, Layout.PixelAt, Layout.Size;
      hide Art.Painting, Art.Dot, Art.CanvasIndex, FontBit;
      var l := art.layout;
      var fbLine, canvasLine := l.LineStart(x, y, gy), l.CanvasLineStart(x, y, gy);
      var i := 0;
      while i < l.scaleX
        invariant 0 <= i <= l.scaleX
        invariant framebuffer[..] == art.Painting(pixels, old_, c, x, y, l.Column(fx) + i, gy)
      {
        var gx := l.Column(fx) + i;
        GlyphDot(art, c.c, x, y, fx, i, gy);
        if old_.Some? {
          GlyphDot(art, old_.value.c, x, y, fx, i, gy);
        }
        PaintDot(art, pixels, old_, c, x, y, gx, gy);
        var bg := if c.bg == TRANSPARENT then art.canvas[canvasLine + gx] else c.bg;
        var fg := if c.fg == TRANSPARENT then art.canvas[canvasLine + gx] else c.fg;
        framebuffer[fbLine + gx] := if draw then fg else bg;
        i := i + 1;
      }
      ColumnStep(l, fx);
    }

    /** Draws one cell from scratch. */
    method PlotChar(c: Cell, x: nat, y: nat)
      requires Shape()
      modifies framebuffer
      ensures framebuffer[..] == if x < cols && y < rows then art.Painted(old(framebuffer[..]), None, c, x, y) else old(framebuffer[..])
    {
      if x >= cols || y >= rows {
        return;
      }
      var l := art.layout;
      hide Layout.Valid, Layout.Column, Layout.Size, Art.Painting, Art.Painted, FontBit;
      ghost var pixels := framebuffer[..];
      LastColumn(l);
      ColumnStep(l, 0);
      PaintLine(art, pixels, None, c, x, y, 0);
      var gy := 0;
      while gy < l.glyphHeight
        invariant 0 <= gy <= l.glyphHeight
        invariant framebuffer[..] == art.Painting(pixels, None, c, x, y, 0, gy)
      {
        var fx := 0;
        while fx < l.fontWidth
          invariant 0 <= fx <= l.fontWidth
          invariant framebuffer[..] == art.Painting(pixels, None, c, x, y, l.Column(fx), gy)
        {
          var draw := FontBit(art, c.c, fx, gy);
          DrawDot(pixels, None, c, x, y, fx, gy, draw);
          fx := fx + 1;
        }
        PaintLine(art, pixels, None, c, x, y, gy);
        gy := gy + 1;
      }
    }

    /** Repaints only the dots of a cell that differ from those of its old glyph. */
    method PlotCharFast(old_: Cell, c: Cell, x: nat, y: nat)
      requires Shape()
      modifies framebuffer
      ensures framebuffer[..] == if x < cols && y < rows then art.Painted(old(framebuffer[..]), Some(old_), c, x, y) else old(framebuffer[..])
    {
      if x >= cols || y >= rows {
        return;
      }
      var l := art.layout;
      hide Layout.Valid, Layout.Column, Layout.Size, Art.Painting, Art.Painted, FontBit;
      ghost var pixels := framebuffer[..];
      LastColumn(l);
      ColumnStep(l, 0);
      PaintLine(art, pixels, Some(old_), c, x, y, 0);
      var gy := 0;
      while gy < l.glyphHeight
        invariant 0 <= gy <= l.glyphHeight
        invariant framebuffer[..] == art.Painting(pixels, Some(old_), c, x, y, 0, gy)
      {
        var fx := 0;
        while fx < l.fontWidth
          invariant 0 <= fx <= l.fontWidth
          invariant framebuffer[..] == art.Painting(pixels, Some(old_), c, x, y, l.Column(fx), gy)
        {
          var oldDraw, newDraw := FontBit(art, old_.c, fx, gy), FontBit(art, c.c, fx, gy);
          if oldDraw == newDraw {
            PaintSkip(art, pixels, old_, c, x, y, fx, gy, l.scaleX);
            ColumnStep(l, fx);
          } else {
            DrawDot(pixels, Some(old_), c, x, y, fx, gy, newDraw);
          }
          fx := fx + 1;
        }
        PaintLine(art, pixels, Some(old_), c, x, y, gy);
        gy := gy + 1;
      }
    }

    /** Queues a new value for one cell, unless the cell already shows it. */
    method PushToQueue(c: Cell, x: nat, y: nat)
      requires Shape() && Linked()
      modifies this`queueI, queue, map_
      ensures Linked()
      ensures Flat() == PutFlat(old(Flat()), c, x, y, cols, rows)
    {
      hide Pending.Linked, Overlay, Index, Times, ColumnOf, RowOf, Art.Valid;
      if x >= cols || y >= rows {
        return;
      }
      CellBound(x, y);
      var i := Index(x, y, cols);
      var q := map_[i];
      if q == Null {
        if grid[i] == c {
          PickDrawn(grid[..], queue[..], map_[..], i);
          return;
        }
        RoomForOneMore(queue[..], queueI, map_[..], cols, rows, i);
        AppendItem(grid[..], queue[..], queueI, map_[..], cols, rows, QueueItem(x, y, c));
        queue[queueI] := QueueItem(x, y, c);
        map_[i] := Item(queueI);
        queueI := queueI + 1;
      } else {
        UpdateItem(grid[..], queue[..], queueI, map_[..], cols, rows, i, c);
        queue[q.index] := queue[q.index].(c := c);
      }
    }

    lemma CellBound(x: nat, y: nat)
      requires Shape() && x < cols && y < rows
      ensures Index(x, y, cols) < grid.Length
    {
      RowBound(x, y, cols, rows);
    }

    /** The cell a new value is read from: its queue item if it has one, else the grid. */
    function Current(i: nat): (c: Cell)
      requires Shape() && Linked() && i < grid.Length
      reads this`queueI, grid, queue, map_
      ensures c == Flat()[i]
    {
      if map_[i].Item? then queue[map_[i].index].c else grid[i]
    }

    /** Queues a blank for each cell of a row. */
    method BlankRow(y: nat)
      requires Shape() && Linked() && y < rows
      modifies this`queueI, queue, map_
      ensures Linked()
      ensures Lines() == Table(old(Flat()), cols, rows)[y := Blanks(cols, textFg, textBg)]
    {
      hide Pending.Linked, Overlay, Index, Times, ColumnOf, RowOf, Art.Valid, Table, Blanking;
      ghost var flat := Flat();
      var empty := Cell(SPACE, textFg, textBg);
      assert Blanking(flat, empty, y, cols, 0) == flat by {
        BlankNone(flat, empty, y, cols);
      }
      var i := 0;
      while i < cols
        invariant 0 <= i <= cols
        invariant Linked() && Flat() == Blanking(flat, empty, y, cols, i)
      {
        BlankStep(flat, empty, y, cols, rows, i);
        PushToQueue(empty, i, y);
        i := i + 1;
      }
      TableBlank(flat, empty, y, cols, rows);
    }

    /** The copying loop of `Scroll`. */
    method ShiftUp()
      requires Shape() && Linked() && scrollTop < scrollBottom <= rows
      modifies this`queueI, queue, map_
      ensures Linked() && Flat() == ScrollingUp(old(Flat()), scrollTop, cols, Times(scrollBottom, cols))
    {
      hide Pending.Linked, Overlay, Index, Times, ColumnOf, RowOf, Art.Valid, Table, ScrollingUp;
      ghost var flat := Flat();
      ScrollUpNone(flat, scrollTop, cols);
      RowsFit(scrollTop + 1, scrollBottom);
      var i := Times(scrollTop + 1, cols);
      while i < Times(scrollBottom, cols)
        invariant Times(scrollTop + 1, cols) <= i <= Times(scrollBottom, cols)
        invariant Linked() && Flat() == ScrollingUp(flat, scrollTop, cols, i)
      {
        ScrollUpStep(flat, scrollTop, cols, rows, i);
        var c := Current(i);
        PushToQueue(c, ColumnOf(i - cols, cols), RowOf(i - cols, cols));
        i := i + 1;
      }
    }

    /** Scrolls the region up by one row. */
    method Scroll()
      requires Ready() && scrollTop < scrollBottom
      modifies this`queueI, queue, map_
      ensures Ready() && State() == old(State()).Scroll()
    {
      hide *;
      Parts();
      ScrolledLines(State(), Flat());
      ShiftUp();
      BlankRow(scrollBottom - 1);
      Parts();
    }

    lemma RowsFit(a: nat, b: nat)
      requires a <= b <= rows
      ensures Times(a, cols) <= Times(b, cols) <= Times(rows, cols)
    {
      Arithmetic.MulMonotonic(a, b, cols);
      Arithmetic.MulMonotonic(b, rows, cols);
    }

    /** The copying loop of `RevScroll`. It counts a `size_t` down, past zero when the region starts
        at the top of the screen. */
    method ShiftDown()
      requires Shape() && Linked() && 1 <= scrollBottom <= rows
      modifies this`queueI, queue, map_
      ensures Linked()
      ensures Flat() == if scrollTop < scrollBottom
                        then ScrollingDown(old(Flat()), scrollBottom, cols, Times(scrollTop, cols) - 1)
                        else old(Flat())
    {
      hide Pending.Linked, Overlay, Index, Times, ColumnOf, RowOf, Art.Valid, Table, ScrollingDown;
      ghost var flat := Flat();
      SizeFits();
      ScrollDownNone(flat, scrollBottom, cols);
      RowsFit(scrollBottom - 1, scrollBottom);
      NextRow(0, scrollBottom - 1, cols);
      RowOrder(scrollTop, scrollBottom - 1);
      var i := SizeSub(Times(scrollBottom - 1, cols), 1);
      ghost var p: int := Times(scrollBottom - 1, cols) - 1;
      while i >= Times(scrollTop, cols)
        invariant -1 <= p < Times(scrollBottom - 1, cols)
        invariant i == if p < 0 then SIZE_MODULUS - 1 else p
        invariant scrollTop < scrollBottom ==> p >= Times(scrollTop, cols) - 1
        invariant scrollTop >= scrollBottom ==> p == Times(scrollBottom - 1, cols) - 1
        invariant Linked() && Flat() == ScrollingDown(flat, scrollBottom, cols, p)
        decreases p
      {
        if i == SIZE_MODULUS - 1 {
          break;
        }
        ScrollDownStep(flat, scrollTop, scrollBottom, cols, rows, i);
        var c := Current(i);
        PushToQueue(c, ColumnOf(i + cols, cols), RowOf(i + cols, cols));
        i := SizeSub(i, 1);
        p := p - 1;
      }
    }

    lemma RowOrder(a: nat, b: nat)
      ensures a <= b ==> Times(a, cols) <= Times(b, cols)
      ensures b <= a ==> Times(b, cols) <= Times(a, cols)
    {
      if a <= b {
        Arithmetic.MulMonotonic(a, b, cols);
      } else {
        Arithmetic.MulMonotonic(b, a, cols);
      }
    }

    /** Scrolls the region down by one row. */
    method RevScroll()
      requires Ready() && scrollBottom >= 1
      modifies this`queueI, queue, map_
      ensures Ready() && State() == old(State()).RevScroll()
    {
      hide *;
      Parts();
      RevScrolledLines(State(), Flat());
      ShiftDown();
      BlankRow(scrollTop);
      Parts();
    }

    lemma SizeFits()
      requires Shape()
      ensures Times(rows, cols) < SIZE_MODULUS - 1
    {
      Arithmetic.MulMonotonic(rows, 0x8000_0000, cols);
    }

    /** Queues a blank for every cell, and optionally homes the cursor. */
    method Clear(move: bool)
      requires Ready()
      modifies this`queueI, this`cursorX, this`cursorY, queue, map_
      ensures Ready() && State() == old(State()).Clear(move)
    {
      hide Pending.Linked, Overlay, Index, Times, ColumnOf, RowOf, Art.Valid, Table, Filling, Drawn;
      ghost var flat := Flat();
      var empty := Cell(SPACE, textFg, textBg);
      assert Filling(flat, empty, 0) == flat by {
        FillNone(flat, empty);
      }
      var i := 0;
      while i < Times(rows, cols)
        invariant 0 <= i <= Times(rows, cols)
        invariant Linked() && Flat() == Filling(flat, empty, i)
        invariant cursorX == old(cursorX) && cursorY == old(cursorY)
      {
        FillStep(flat, empty, cols, rows, i);
        PushToQueue(empty, ColumnOf(i, cols), RowOf(i, cols));
        i := i + 1;
      }
      TableFill(flat, empty, cols, rows);
      if move {
        cursorX := 0;
        cursorY := 0;
      }
    }

    method SetCursorPos(x: nat, y: nat)
      requires Ready()
      modifies this`cursorX, this`cursorY
      ensures Ready() && State() == old(State()).SetCursor(x, y)
    {
      var newX, newY := x, y;
      if x >= cols {
        newX := if AsInt32(x) < 0 then 0 else cols - 1;
      }
      if y >= rows {
        newY := if AsInt32(y) < 0 then 0 else rows - 1;
      }
      cursorX := newX;
      cursorY := newY;
    }

    method GetCursorPos() returns (x: nat, y: nat)
      requires Ready()
      ensures x == State().X() && y == State().Y()
    {
      x := if cursorX >= cols then cols - 1 else cursorX;
      y := if cursorY >= rows then rows - 1 else cursorY;
    }

    method MoveCharacter(newX: nat, newY: nat, oldX: nat, oldY: nat)
      requires Ready()
      modifies this`queueI, queue, map_
      ensures Ready() && State() == old(State()).MoveCharacter(newX, newY, oldX, oldY)
    {
      hide Pending.Linked, Overlay, Index, Times, ColumnOf, RowOf, Art.Valid, Table, Drawn;
      if oldX >= cols || oldY >= rows || newX >= cols || newY >= rows {
        return;
      }
      var i := Index(oldX, oldY, cols);
      TableAt(Flat(), cols, rows, oldX, oldY);
      TablePut(Flat(), cols, rows, newX, newY, Flat()[i]);
      var c := Current(i);
      PushToQueue(c, newX, newY);
    }

    /** `PushToQueue`, on the logical screen. */
    method PutCell(c: Cell, x: nat, y: nat)
      requires Ready()
      modifies this`queueI, queue, map_
      ensures Ready() && State() == old(State()).Put(c, x, y)
    {
      hide Pending.Linked, Overlay, Index, Times, Art.Valid, Table, Drawn;
      TablePut(Flat(), cols, rows, x, y, c);
      PushToQueue(c, x, y);
    }

    /** The wrap of a full line. */
    method LineWrap()
      requires Ready() && scrollTop < scrollBottom
      modifies this`queueI, this`cursorX, this`cursorY, queue, map_
      ensures Ready() && State() == old(State()).Wrap()
    {
      hide Linked, Flat, Lines, Drawn, Art.Valid;
      cursorX := 0;
      cursorY := cursorY + 1;
      if cursorY == scrollBottom {
        cursorY := cursorY - 1;
        Scroll();
      }
      if cursorY >= cols {
        cursorY := cols - 1;
      }
    }

    /** Draws a glyph at the cursor, after the pending wrap of a full line. */
    method RawPutchar(c: u8)
      requires Ready() && scrollTop < scrollBottom
      modifies this`queueI, this`cursorX, this`cursorY, queue, map_
      ensures Ready() && State() == old(State()).RawPutchar(c)
    {
      hide Linked, Flat, Lines, Shape, Drawn, Display.Wrap, Display.Put;
      if cursorX >= cols && (cursorY < scrollBottom - 1 || scrollEnabled) {
        LineWrap();
      }
      PutCell(Cell(c, textFg, textBg), cursorX, cursorY);
      cursorX := cursorX + 1;
    }

    /** Draws the cell under the cursor inverted, and commits its pending value. */
    method DrawCursor(ghost staleX: nat, ghost staleY: nat)
      requires Shape() && Draining(queue[..], queueI, map_[..], cols, rows, 0)
      requires Faithful(art, framebuffer[..], grid[..], None, staleX, staleY)
      modifies framebuffer, grid, map_
      ensures Draining(queue[..], queueI, map_[..], cols, rows, 0) && Flat() == old(Flat())
      ensures forall i :: 0 <= i < map_.Length && old(map_[i]) == Null ==> map_[i] == Null && grid[i] == old(grid[i])
      ensures cursorX >= cols || cursorY >= rows ==>
        framebuffer[..] == old(framebuffer[..]) && grid[..] == old(grid[..]) && map_[..] == old(map_[..])
      ensures cursorX < cols && cursorY < rows ==>
        && Faithful(art, framebuffer[..], grid[..], Some((cursorX, cursorY)), staleX, staleY)
        && Index(cursorX, cursorY, cols) < map_.Length
        && map_[..] == old(map_[..])[Index(cursorX, cursorY, cols) := Null]
    {
      hide Overlay, Index, Times, Art.Valid, Table, Draining, Faithful, Art.Painted;
      if cursorX >= cols || cursorY >= rows {
        return;
      }
      CellBound(cursorX, cursorY);
      var i := Index(cursorX, cursorY, cols);
      var q := map_[i];
      if q != Null {
        Unlink(grid[..], queue[..], queueI, map_[..], cols, rows, 0, i);
      } else {
        PickDrawn(grid[..], queue[..], map_[..], i);
      }
      ghost var shown := Flat()[i];
      DrawnWhole(art, framebuffer[..], grid[..], None, Some((cursorX, cursorY)), staleX, staleY, shown, cursorX, cursorY);
      var c := if q != Null then queue[q.index].c else grid[i];
      PlotChar(Inverted(c), cursorX, cursorY);
      if q != Null {
        grid[i] := queue[q.index].c;
        map_[i] := Null;
      }
      assert grid[..] == PutFlat(old(grid[..]), shown, cursorX, cursorY, cols, rows);
      assert map_[..] == old(map_[..])[i := Null];
    }

    /** Draws one queue item, unless its cell has been drawn already. */
    method DrawItem(j: nat, ghost cursor: Option<(nat, nat)>)
      requires Shape() && j < queueI && Draining(queue[..], queueI, map_[..], cols, rows, j)
      requires Faithful(art, framebuffer[..], grid[..], cursor, oldCursorX, oldCursorY)
      requires cursor.Some? ==>
        var (x, y) := cursor.value; x < cols && y < rows && Index(x, y, cols) < map_.Length && map_[Index(x, y, cols)] == Null
      modifies framebuffer, grid, map_
      ensures Draining(queue[..], queueI, map_[..], cols, rows, j + 1) && Flat() == old(Flat())
      ensures Faithful(art, framebuffer[..], grid[..], cursor, oldCursorX, oldCursorY)
      ensures forall i :: 0 <= i < map_.Length && old(map_[i]) == Null ==> map_[i] == Null
    {
      hide Overlay, Index, Times, Art.Valid, Table, Draining, Faithful, Art.Painted;
      Skip(queue[..], queueI, map_[..], cols, rows, j);
      ItemInQueue(j);
      var q := queue[j];
      var offset := Offset(q, cols);
      if map_[offset] == Null {
        return;
      }
      Unlink(grid[..], queue[..], queueI, map_[..], cols, rows, j, offset);
      var old_ := grid[offset];
      if q.c.bg == old_.bg && q.c.fg == old_.fg {
        DrawnFast(art, framebuffer[..], grid[..], cursor, oldCursorX, oldCursorY, q.c, q.x, q.y);
        PlotCharFast(old_, q.c, q.x, q.y);
      } else {
        DrawnWhole(art, framebuffer[..], grid[..], cursor, cursor, oldCursorX, oldCursorY, q.c, q.x, q.y);
        PlotChar(q.c, q.x, q.y);
      }
      grid[offset] := q.c;
      map_[offset] := Null;
      assert grid[..] == PutFlat(old(grid[..]), q.c, q.x, q.y, cols, rows);
      assert map_[..] == old(map_[..])[offset := Null];
      Skip(queue[..], queueI, map_[..], cols, rows, j);
    }

    lemma ItemInQueue(j: nat)
      requires Shape() && j < queueI && Draining(queue[..], queueI, map_[..], cols, rows, j)
      ensures queueI <= queue.Length && queue[j].x < cols && queue[j].y < rows
      ensures var i := Offset(queue[j], cols); i < map_.Length && (map_[i] == Null || map_[i] == Item(j))
    {
      assert queue[..][j] == queue[j];
    }

    /** Redraws the cell where the last flush drew the cursor, unless the cursor is still there. */
    method RepairOldCursor()
      requires Shape() && Faithful(art, framebuffer[..], grid[..], ShownCursor(), oldCursorX, oldCursorY)
      modifies framebuffer
      ensures forall k {:trigger art.Visible(k)} :: 0 <= k < framebuffer.Length && art.Visible(k) ==>
        framebuffer[..][k] == art.Render(Table(grid[..], cols, rows), ShownCursor(), k)
    {
      hide Index, Times, Art.Valid, Table, Faithful, Art.Painted;
      if oldCursorX != cursorX || oldCursorY != cursorY || !cursorEnabled {
        if oldCursorX < cols && oldCursorY < rows {
          CellBound(oldCursorX, oldCursorY);
          Repaired(art, framebuffer[..], grid[..], ShownCursor(), oldCursorX, oldCursorY);
          PlotChar(grid[Index(oldCursorX, oldCursorY, cols)], oldCursorX, oldCursorY);
          return;
        }
      }
      NothingStale(art, framebuffer[..], grid[..], ShownCursor(), oldCursorX, oldCursorY);
    }

    /** Draws everything pending and the cursor. The picture becomes the one a from-scratch drawing of
        the logical screen leaves, which itself does not change; nothing stays pending. */
    method DoubleBufferFlush()
      requires Ready()
      modifies this`oldCursorX, this`oldCursorY, this`queueI, framebuffer, grid, map_
      ensures Ready() && State() == old(State())
      ensures Redrawn() && Shown()
      ensures queueI == 0 && grid[..] == Flat() && forall i :: 0 <= i < map_.Length ==> map_[i] == Null
    {
      hide *;
      Parts();
      PictureParts();
      StartDraining(queue[..], queueI, map_[..], cols, rows);
      if cursorEnabled {
        DrawCursor(oldCursorX, oldCursorY);
      }
      var i := 0;
      while i < queueI
        invariant 0 <= i && Draining(queue[..], queueI, map_[..], cols, rows, i) && i <= queueI
        invariant queueI == old(queueI) && Flat() == old(Flat())
        invariant Faithful(art, framebuffer[..], grid[..], ShownCursor(), oldCursorX, oldCursorY)
        invariant ShownCursor().Some? ==>
          Index(cursorX, cursorY, cols) < map_.Length && map_[Index(cursorX, cursorY, cols)] == Null
      {
        DrawItem(i, ShownCursor());
        i := i + 1;
      }
      Drained(grid[..], queue[..], queueI, map_[..], cols, rows);
      RepairOldCursor();
      PictureParts();
      StaleAtCursor(art, framebuffer[..], grid[..], ShownCursor(), cursorX, cursorY);
      oldCursorX := cursorX;
      oldCursorY := cursorY;
      queueI := 0;
      Parts();
      PictureParts();
      ShownWhenRedrawn();
    }

    method SetTextFg(fg: nat)
      requires Ready() && fg < 8
      modifies this`textFg
      ensures Ready() && State() == old(State()).(fg := palette.ansi[fg])
    {
      textFg := palette.ansi[fg];
    }

    method SetTextBg(bg: nat)
      requires Ready() && bg < 8
      modifies this`textBg
      ensures Ready() && State() == old(State()).(bg := palette.ansi[bg])
    {
      textBg := palette.ansi[bg];
    }

    method SetTextFgBright(fg: nat)
      requires Ready() && fg < 8
      modifies this`textFg
      ensures Ready() && State() == old(State()).(fg := palette.bright[fg])
    {
      textFg := palette.bright[fg];
    }

    method SetTextBgBright(bg: nat)
      requires Ready() && bg < 8
      modifies this`textBg
      ensures Ready() && State() == old(State()).(bg := palette.bright[bg])
    {
      textBg := palette.bright[bg];
    }

    method SetTextFgRgb(fg: u32)
      requires Ready()
      modifies this`textFg
      ensures Ready() && State() == old(State()).(fg := fg)
    {
      textFg := fg;
    }

    method SetTextBgRgb(bg: u32)
      requires Ready()
      modifies this`textBg
      ensures Ready() && State() == old(State()).(bg := bg)
    {
      textBg := bg;
    }

    method SetTextFgDefault()
      requires Ready()
      modifies this`textFg
      ensures Ready() && State() == old(State()).(fg := palette.defaultFg)
    {
      textFg := palette.defaultFg;
    }

    method SetTextBgDefault()
      requires Ready()
      modifies this`textBg
      ensures Ready() && State() == old(State()).(bg := TRANSPARENT)
    {
      textBg := TRANSPARENT;
    }

    method SetTextFgDefaultBright()
      requires Ready()
      modifies this`textFg
      ensures Ready() && State() == old(State()).(fg := palette.defaultFgBright)
    {
      textFg := palette.defaultFgBright;
    }

    method SetTextBgDefaultBright()
      requires Ready()
      modifies this`textBg
      ensures Ready() && State() == old(State()).(bg := palette.defaultBgBright)
    {
      textBg := palette.defaultBgBright;
    }

    method SwapPalette()
      requires Ready()
      modifies this`textFg, this`textBg
      ensures Ready() && State() == old(State()).SwapPalette()
    {
      var tmp := textBg;
      textBg := textFg;
      textFg := tmp;
    }

    // Writes of the parser to the fields it shares with the backend.

    method SetScrollEnabled(b: bool)
      requires Ready()
      modifies this`scrollEnabled
      ensures Ready() && State() == old(State()).(scrollEnabled := b)
    {
      scrollEnabled := b;
    }

    method SetCursorEnabled(b: bool)
      requires Ready()
      modifies this`cursorEnabled
      ensures Ready() && State() == old(State()).(cursorEnabled := b)
    {
      cursorEnabled := b;
    }

    method SetScrollMargins(top: nat, bottom: nat)
      requires Ready() && top < rows && bottom <= rows
      modifies this`scrollTop, this`scrollBottom
      ensures Ready() && State() == old(State()).(top := top, bottom := bottom)
    {
      scrollTop := top;
      scrollBottom := bottom;
    }

    method SaveState()
      requires Ready()
      modifies this`savedTextFg, this`savedTextBg, this`savedCursorX, this`savedCursorY
      ensures Ready() && State() == old(State()).SaveState()
    {
      savedTextFg := textFg;
      savedTextBg := textBg;
      savedCursorX := cursorX;
      savedCursorY := cursorY;
    }

    method RestoreState()
      requires Ready()
      modifies this`textFg, this`textBg, this`cursorX, this`cursorY
      ensures Ready() && State() == old(State()).RestoreState()
    {
      textFg := savedTextFg;
      textBg := savedTextBg;
      cursorX := savedCursorX;
      cursorY := savedCursorY;
    }

    /** Copies the canvas to the framebuffer, line by line. */
    method PaintCanvas()
      requires Shape()
      modifies framebuffer
      ensures forall k :: 0 <= k < framebuffer.Length ==>
        framebuffer[k] == if art.Visible(k) then art.Under(k) else old(framebuffer[k])
    {
      hide Times, Layout.Valid;
      var l := art.layout;
      LayoutFacts(l);
      var y := 0;
      while y < l.height
        invariant 0 <= y <= l.height
        invariant forall k :: 0 <= k < framebuffer.Length ==>
          framebuffer[k] == if art.Copied(k, 0, y) then art.Under(k) else old(framebuffer[k])
      {
        var x := 0;
        while x < l.width
          invariant 0 <= x <= l.width
          invariant forall k :: 0 <= k < framebuffer.Length ==>
            framebuffer[k] == if art.Copied(k, x, y) then art.Under(k) else old(framebuffer[k])
        {
          CopyIndex(art, x, y);
          forall k | 0 <= k < framebuffer.Length
            ensures art.Copied(k, x + 1, y) <==> art.Copied(k, x, y) || k == l.Pixel(x, y)
          {
            CopyDot(art, x, y, k);
          }
          framebuffer[l.Pixel(x, y)] := art.canvas[art.CanvasAt(x, y)];
          x := x + 1;
        }
        forall k | 0 <= k < framebuffer.Length
          ensures art.Copied(k, l.width, y) <==> art.Copied(k, 0, y + 1)
        {
          CopyLine(art, y, k);
        }
        y := y + 1;
      }
      forall k | 0 <= k < framebuffer.Length
        ensures art.Copied(k, 0, l.height) <==> art.Visible(k)
      {
        CopyEnd(art, k);
      }
    }

    /** Draws every cell of the grid over the canvas. */
    method LayGrid()
      requires Shape()
      modifies framebuffer
      ensures Laid(art, framebuffer[..], grid[..], Times(rows, cols))
    {
      hide Index, Times, ColumnOf, RowOf, Art.Valid, Table, Laid, Art.Painted;
      PaintCanvas();
      StartLaying(art, framebuffer[..], grid[..]);
      var i := 0;
      while i < Times(rows, cols)
        invariant 0 <= i <= Times(rows, cols)
        invariant Laid(art, framebuffer[..], grid[..], i)
      {
        LayStep(art, framebuffer[..], grid[..], i);
        PlotChar(grid[i], ColumnOf(i, cols), RowOf(i, cols));
        i := i + 1;
      }
    }

    /** Redraws everything from scratch. A pending cell under the shown cursor is committed without
        leaving the queue, which breaks the links exactly in that case. */
    method FullRefresh()
      requires Shape() && Linked()
      modifies framebuffer, grid, map_
      ensures Flat() == old(Flat())
      ensures forall k {:trigger framebuffer[k]} :: 0 <= k < framebuffer.Length && art.Visible(k) ==>
        framebuffer[k] == art.Render(Table(grid[..], cols, rows), ShownCursor(), k)
      ensures ShownCursor().Some? ==> Index(cursorX, cursorY, cols) < map_.Length
      ensures Linked() <==> !(ShownCursor().Some? && old(map_[Index(cursorX, cursorY, cols)]).Item?)
      ensures ShownCursor() == None || (oldCursorX == cursorX && oldCursorY == cursorY) ==> Drawn()
      ensures forall i :: 0 <= i < map_.Length && old(map_[i]) == Null ==> map_[i] == Null && grid[i] == old(grid[i])
    {
      hide Overlay, Index, Times, Art.Valid, Table, Draining, Faithful, Art.Painted, Laid, Pending.Linked;
      LayGrid();
      LaidAll(art, framebuffer[..], grid[..], cursorX, cursorY);
      LaidAll(art, framebuffer[..], grid[..], oldCursorX, oldCursorY);
      StartDraining(queue[..], queueI, map_[..], cols, rows);
      if cursorEnabled && cursorX < cols && cursorY < rows {
        CellBound(cursorX, cursorY);
        BrokenLink(queue[..], queueI, map_[..], cols, rows, Index(cursorX, cursorY, cols));
      }
      if cursorEnabled {
        DrawCursor(cursorX, cursorY);
      }
      if ShownCursor() == None {
        LaidAll(art, framebuffer[..], grid[..], cols, rows);
        NothingStale(art, framebuffer[..], grid[..], None, cols, rows);
      } else {
        NothingStale(art, framebuffer[..], grid[..], ShownCursor(), cursorX, cursorY);
        StaleAtCursor(art, framebuffer[..], grid[..], ShownCursor(), cursorX, cursorY);
      }
    }

    /** Fits the grid into the framebuffer, allocates the arrays and draws the empty screen. */
    constructor (framebuffer: array<u32>, width: nat, height: nat, pitch: nat, canvas: seq<u32>, palette: Palette,
                 font: seq<bool>, fontWidth: nat, fontHeight: nat, scaleX: nat, scaleY: nat, margin: nat)
      requires 1 <= fontWidth && 1 <= fontHeight && 1 <= scaleX && 1 <= scaleY
      requires 2 * margin + fontWidth * scaleX <= width < 0x8000_0000
      requires 2 * margin + fontHeight * scaleY <= height < 0x8000_0000
      requires width <= pitch / 4 && framebuffer.Length == height * (pitch / 4)
      requires |canvas| == height * width && |font| == GLYPHS * fontHeight * fontWidth && palette.Valid()
      modifies framebuffer
      ensures Ready() && fresh(grid) && fresh(queue) && fresh(map_) && this.framebuffer == framebuffer
      ensures cols == (width - 2 * margin) / (fontWidth * scaleX) && rows == (height - 2 * margin) / (fontHeight * scaleY)
      ensures var blank := Cell(SPACE, palette.defaultFg, TRANSPARENT);
        State() == Display(cols, rows, palette, seq(rows, _ => seq(cols, _ => blank)), 0, rows, true, true,
                           0, 0, palette.defaultFg, TRANSPARENT, 0, 0, 0, 0)
      ensures Redrawn() && Shown() && queueI == 0
      ensures art.font == font && art.canvas == canvas && art.layout == Layout(width, height, pitch / 4, cols, rows,
        margin + (width - 2 * margin) % (fontWidth * scaleX) / 2, margin + (height - 2 * margin) % (fontHeight * scaleY) / 2,
        fontWidth, fontHeight, scaleX, scaleY, fontWidth * scaleX, fontHeight * scaleY)
    {
      hide *;
      FittedArt(width, height, pitch / 4, canvas, font, fontWidth, fontHeight, scaleX, scaleY, margin);
      var layout := Fit(width, height, pitch / 4, fontWidth, fontHeight, scaleX, scaleY, margin);
      var n := Times(layout.rows, layout.cols);
      art := Art(layout, font, canvas);
      this.palette := palette;
      cols, rows := layout.cols, layout.rows;
      this.framebuffer := framebuffer;
      var blank := Cell(SPACE, palette.defaultFg, TRANSPARENT);
      grid := new Cell[n](_ => blank);
      queue := new QueueItem[n](_ => QueueItem(0, 0, Cell(0, 0, 0)));
      queueI := 0;
      map_ := new Slot[n](_ => Null);
      textFg, textBg := palette.defaultFg, TRANSPARENT;
      cursorX, cursorY, oldCursorX, oldCursorY := 0, 0, 0, 0;
      savedTextFg, savedTextBg, savedCursorX, savedCursorY := 0, 0, 0, 0;
      cursorEnabled, scrollEnabled := true, true;
      scrollTop, scrollBottom := 0, layout.rows;
      new;
      MakeShape();
      PictureParts();
      NothingLinked(queue[..], map_[..], cols, rows);
      FullRefresh();
      NothingPending(grid[..], queue[..], map_[..], cols, rows, blank);
      Parts();
      PictureParts();
      ShownWhenRedrawn();
    }

    lemma MakeShape()
      requires art.Valid() && palette.Valid() && cols == art.layout.cols && rows == art.layout.rows
      requires 1 <= cols < 0x8000_0000 && 1 <= rows < 0x8000_0000 && framebuffer.Length == art.layout.Size()
      requires grid.Length == queue.Length == map_.Length == Times(rows, cols)
      ensures Shape()
    {
    }
  }
}
