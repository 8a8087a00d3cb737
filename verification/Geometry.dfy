/**
 Pixels and glyph cells of the framebuffer backend.

 A framebuffer of `height` lines of `stride` words holds a grid of `cols` by `rows` cells of
 `glyphWidth` by `glyphHeight` pixels, `offsetX` and `offsetY` away from the top left corner.
 `Ink` is the colour a from-scratch drawing gives to a pixel, and `Render` the whole picture.
 */
module Geometry {
  import Arithmetic
  import opened Words
  import opened DisplayModel

  const GLYPHS: nat := 256

  /** The place of a pixel: a cell of the grid, and coordinates inside its glyph. */
  datatype Spot = Spot(x: nat, y: nat, gx: nat, gy: nat)

  datatype Layout = Layout(
    width: nat, height: nat, stride: nat,
    cols: nat, rows: nat, offsetX: nat, offsetY: nat,
    fontWidth: nat, fontHeight: nat, scaleX: nat, scaleY: nat,
    glyphWidth: nat, glyphHeight: nat)
  {
    ghost predicate Valid() {
      && 1 <= fontWidth && 1 <= fontHeight && 1 <= scaleX && 1 <= scaleY
      && glyphWidth == fontWidth * scaleX && 1 <= glyphWidth
      && glyphHeight == fontHeight * scaleY && 1 <= glyphHeight
      && offsetX + cols * glyphWidth <= width <= stride
      && offsetY + rows * glyphHeight <= height
      && 1 <= cols < 0x8000_0000 && 1 <= rows < 0x8000_0000
    }

    function Size(): nat {
      height * stride
    }

    function Pixel(px: nat, py: nat): nat {
      px + py * stride
    }

    function PixelX(k: nat): nat {
      if stride == 0 then 0 else k % stride
    }

    function PixelY(k: nat): nat {
      if stride == 0 then 0 else k / stride
    }

    /** The pixel `k` belongs to a cell of the grid. */
    predicate Inside(k: nat) {
      && offsetX <= PixelX(k) < offsetX + cols * glyphWidth
      && offsetY <= PixelY(k) < offsetY + rows * glyphHeight
    }

    function SpotOf(k: nat): Spot {
      if Inside(k) && glyphWidth >= 1 && glyphHeight >= 1 then
        var dx, dy := PixelX(k) - offsetX, PixelY(k) - offsetY;
        Spot(dx / glyphWidth, dy / glyphHeight, dx % glyphWidth, dy % glyphHeight)
      else Spot(0, 0, 0, 0)
    }

    predicate InCell(k: nat, x: nat, y: nat) {
      Inside(k) && SpotOf(k).x == x && SpotOf(k).y == y
    }

    /** The framebuffer index where line `gy` of a cell starts. */
    function LineStart(x: nat, y: nat, gy: nat): nat {
      offsetX + x * glyphWidth + (offsetY + y * glyphHeight + gy) * stride
    }

    /** The canvas index where line `gy` of a cell starts. */
    function CanvasLineStart(x: nat, y: nat, gy: nat): nat {
      offsetX + x * glyphWidth + (offsetY + y * glyphHeight + gy) * width
    }

    /** The first glyph column of font column `fx`. */
    function Column(fx: nat): nat {
      scaleX * fx
    }

    function PixelAt(s: Spot): nat {
      Pixel(offsetX + s.x * glyphWidth + s.gx, offsetY + s.y * glyphHeight + s.gy)
    }

    predicate InGlyph(s: Spot) {
      s.x < cols && s.y < rows && s.gx < glyphWidth && s.gy < glyphHeight
    }

    /** The pixels of a cell that a raster scan has passed when it is at `(gx, gy)`. */
    predicate Passed(k: nat, x: nat, y: nat, gx: nat, gy: nat) {
      InCell(k, x, y) && (SpotOf(k).gy < gy || (SpotOf(k).gy == gy && SpotOf(k).gx < gx))
    }

    function DotIndex(c: u8, gx: nat, gy: nat): nat {
      if scaleX == 0 || scaleY == 0 then 0
      else
        var fx, fy := gx / scaleX, (gy / scaleY) % 0x100;
        c * fontHeight * fontWidth + fy * fontWidth + fx
    }
  }

  lemma DivLess(a: nat, n: nat, d: nat)
    requires d >= 1 && a < n * d
    ensures a / d < n
  {
    assert a / d * d <= a;
  }

  lemma RowBound(x: nat, y: nat, w: nat, h: nat)
    requires x < w && y < h
    ensures y * w + x < h * w
  {
    assert (y + 1) * w <= h * w;
  }

  /** Cells cover disjoint rectangles inside the picture: a place in the grid and a pixel inside the
      grid determine each other. */
  lemma SpotToPixel(l: Layout, s: Spot)
    requires l.Valid() && l.InGlyph(s)
    ensures l.PixelAt(s) < l.Size() && l.Inside(l.PixelAt(s)) && l.SpotOf(l.PixelAt(s)) == s
    ensures l.PixelX(l.PixelAt(s)) == l.offsetX + s.x * l.glyphWidth + s.gx < l.width
    ensures l.PixelY(l.PixelAt(s)) == l.offsetY + s.y * l.glyphHeight + s.gy < l.height
  {
    RowBound(s.gx, s.x, l.glyphWidth, l.cols);
    RowBound(s.gy, s.y, l.glyphHeight, l.rows);
    var px, py := l.offsetX + s.x * l.glyphWidth + s.gx, l.offsetY + s.y * l.glyphHeight + s.gy;
    RowBound(px, py, l.stride, l.height);
    Arithmetic.DivMod(py, l.stride, px);
    Arithmetic.DivMod(s.x, l.glyphWidth, s.gx);
    Arithmetic.DivMod(s.y, l.glyphHeight, s.gy);
  }

  lemma PixelToSpot(l: Layout, k: nat)
    requires l.Valid() && l.Inside(k)
    ensures l.InGlyph(l.SpotOf(k)) && l.PixelAt(l.SpotOf(k)) == k
    ensures k < l.Size() && l.PixelX(k) < l.width && l.PixelY(k) < l.height
  {
    var px, py := l.PixelX(k), l.PixelY(k);
    Recompose(px, l.offsetX, l.cols, l.glyphWidth);
    Recompose(py, l.offsetY, l.rows, l.glyphHeight);
    RowBound(px, py, l.stride, l.height);
  }

  lemma Recompose(p: nat, offset: nat, n: nat, size: nat)
    requires 1 <= size && offset <= p < offset + n * size
    ensures (p - offset) / size < n && (p - offset) % size < size
    ensures offset + (p - offset) / size * size + (p - offset) % size == p
  {
    DivLess(p - offset, n, size);
  }

  lemma DotInFont(l: Layout, c: u8, gx: nat, gy: nat)
    requires l.Valid() && gx < l.glyphWidth && gy < l.glyphHeight
    ensures l.DotIndex(c, gx, gy) < GLYPHS * l.fontHeight * l.fontWidth
  {
    DotBound(c, gx, gy, l.fontWidth, l.fontHeight, l.scaleX, l.scaleY);
  }

  lemma DotBound(c: nat, gx: nat, gy: nat, w: nat, h: nat, sx: nat, sy: nat)
    requires c < GLYPHS && 1 <= sx && 1 <= sy && gx < w * sx && gy < h * sy
    ensures c * h * w + (gy / sy) % 0x100 * w + gx / sx < GLYPHS * h * w
  {
    DivLess(gx, w, sx);
    DivLess(gy, h, sy);
    var fx, fy := gx / sx, (gy / sy) % 0x100;
    assert fy < h by { RemainderAtMost(gy / sy, 0x100); }
    GlyphBound(c, fx, fy, w, h);
  }

  lemma RemainderAtMost(a: nat, m: nat)
    requires m >= 1
    ensures a % m <= a
  {
  }

  lemma GlyphBound(c: nat, fx: nat, fy: nat, w: nat, h: nat)
    requires c < GLYPHS && fx < w && fy < h
    ensures c * h * w + fy * w + fx < GLYPHS * h * w
  {
    RowBound(fx, fy, w, h);
    RowBound(fy * w + fx, c, h * w, GLYPHS);
    assert c * h * w == c * (h * w);
    assert GLYPHS * h * w == GLYPHS * (h * w);
  }

  /** Passing one more dot of a cell passes exactly one more pixel. */
  lemma PassDot(l: Layout, x: nat, y: nat, gx: nat, gy: nat, k: nat)
    requires l.Valid() && l.InGlyph(Spot(x, y, gx, gy))
    ensures l.Passed(k, x, y, gx + 1, gy) <==> l.Passed(k, x, y, gx, gy) || k == l.PixelAt(Spot(x, y, gx, gy))
    ensures !l.Passed(l.PixelAt(Spot(x, y, gx, gy)), x, y, gx, gy)
  {
    SpotToPixel(l, Spot(x, y, gx, gy));
    if l.Inside(k) {
      PixelToSpot(l, k);
    }
  }

  /** A scan that is past the last dot of a line is at the start of the next one. */
  lemma PassLine(l: Layout, x: nat, y: nat, gy: nat, k: nat)
    requires l.Valid()
    ensures l.Passed(k, x, y, l.glyphWidth, gy) <==> l.Passed(k, x, y, 0, gy + 1)
    ensures l.Passed(k, x, y, 0, l.glyphHeight) <==> l.InCell(k, x, y)
  {
    if l.Inside(k) {
      PixelToSpot(l, k);
    }
  }

  /** A font and a canvas, over a layout. */
  datatype Art = Art(layout: Layout, font: seq<bool>, canvas: seq<u32>) {

    ghost predicate Valid() {
      && layout.Valid()
      && |font| == GLYPHS * layout.fontHeight * layout.fontWidth
      && |canvas| == layout.height * layout.width
    }

    function CanvasIndex(k: nat): nat {
      layout.PixelX(k) + layout.PixelY(k) * layout.width
    }

    /** The canvas behind a pixel. */
    function Under(k: nat): u32 {
      if CanvasIndex(k) < |canvas| then canvas[CanvasIndex(k)] else 0
    }

    function CanvasAt(x: nat, y: nat): nat {
      x + y * layout.width
    }

    /** The visible pixels that a copy of the canvas has passed when it is at `(x, y)`. */
    predicate Copied(k: nat, x: nat, y: nat) {
      layout.PixelX(k) < layout.width && (layout.PixelY(k) < y || (layout.PixelY(k) == y && layout.PixelX(k) < x))
    }

    /** The pixel is on the visible part of its line. */
    predicate Visible(k: nat) {
      k < layout.Size() && layout.PixelX(k) < layout.width
    }

    /** The font bit of glyph `c` at a pixel of the grid. */
    function Dot(c: u8, k: nat): bool {
      var i := layout.DotIndex(c, layout.SpotOf(k).gx, layout.SpotOf(k).gy);
      i < |font| && font[i]
    }

    /** The colour of a pixel of the grid whose cell shows `ch`. */
    function Ink(ch: Cell, k: nat): u32 {
      var colour := if Dot(ch.c, k) then ch.fg else ch.bg;
      if colour == TRANSPARENT then Under(k) else colour
    }

    /** The colour of a pixel in a from-scratch drawing of `lines`, with the cell under the cursor
        inverted. */
    function Render(lines: seq<seq<Cell>>, cursor: Option<(nat, nat)>, k: nat): u32 {
      if layout.Inside(k) then
        var s := layout.SpotOf(k);
        if s.y < |lines| && s.x < |lines[s.y]| then
          Ink(if cursor == Some((s.x, s.y)) then Inverted(lines[s.y][s.x]) else lines[s.y][s.x], k)
        else Under(k)
      else Under(k)
    }

    /** A pixel that drawing `c` writes: all of them from scratch, only the dots that differ from
        those of `old` in the fast form. */
    predicate Writes(old_: Option<Cell>, c: Cell, k: nat) {
      old_ == None || Dot(old_.value.c, k) != Dot(c.c, k)
    }

    /** The picture while a cell is drawn, with the scan at dot `(gx, gy)`. */
    function Painting(pixels: seq<u32>, old_: Option<Cell>, c: Cell, x: nat, y: nat, gx: nat, gy: nat): (r: seq<u32>)
      ensures |r| == |pixels|
    {
      seq(|pixels|, k requires 0 <= k < |pixels| =>
        if layout.Passed(k, x, y, gx, gy) && Writes(old_, c, k) then Ink(c, k) else pixels[k])
    }

    /** The picture after a cell is drawn. */
    function Painted(pixels: seq<u32>, old_: Option<Cell>, c: Cell, x: nat, y: nat): (r: seq<u32>)
      ensures |r| == |pixels|
    {
      seq(|pixels|, k requires 0 <= k < |pixels| =>
        if layout.InCell(k, x, y) && Writes(old_, c, k) then Ink(c, k) else pixels[k])
    }
  }

  function Inverted(c: Cell): Cell {
    c.(fg := c.bg, bg := c.fg)
  }

  lemma CanvasBound(a: Art, k: nat)
    requires a.Valid() && a.Visible(k)
    ensures a.CanvasIndex(k) < |a.canvas|
  {
    DivLess(k, a.layout.height, a.layout.stride);
    RowBound(a.layout.PixelX(k), a.layout.PixelY(k), a.layout.width, a.layout.height);
  }

  lemma PaintDot(a: Art, pixels: seq<u32>, old_: Option<Cell>, c: Cell, x: nat, y: nat, gx: nat, gy: nat)
    requires a.Valid() && a.layout.InGlyph(Spot(x, y, gx, gy)) && |pixels| == a.layout.Size()
    ensures var k := a.layout.PixelAt(Spot(x, y, gx, gy));
      var p := a.Painting(pixels, old_, c, x, y, gx, gy);
      && k < |p|
      && a.Painting(pixels, old_, c, x, y, gx + 1, gy) == if a.Writes(old_, c, k) then p[k := a.Ink(c, k)] else p
  {
    SpotToPixel(a.layout, Spot(x, y, gx, gy));
    forall k | 0 <= k < |pixels|
      ensures a.layout.Passed(k, x, y, gx + 1, gy)
        <==> a.layout.Passed(k, x, y, gx, gy) || k == a.layout.PixelAt(Spot(x, y, gx, gy))
    {
      PassDot(a.layout, x, y, gx, gy, k);
    }
  }

  lemma PaintLine(a: Art, pixels: seq<u32>, old_: Option<Cell>, c: Cell, x: nat, y: nat, gy: nat)
    requires a.Valid()
    ensures a.Painting(pixels, old_, c, x, y, a.layout.glyphWidth, gy) == a.Painting(pixels, old_, c, x, y, 0, gy + 1)
    ensures a.Painting(pixels, old_, c, x, y, 0, 0) == pixels
    ensures a.Painting(pixels, old_, c, x, y, 0, a.layout.glyphHeight) == a.Painted(pixels, old_, c, x, y)
  {
    forall k | 0 <= k < |pixels|
      ensures a.layout.Passed(k, x, y, a.layout.glyphWidth, gy) <==> a.layout.Passed(k, x, y, 0, gy + 1)
      ensures a.layout.Passed(k, x, y, 0, a.layout.glyphHeight) <==> a.layout.InCell(k, x, y)
    {
      PassLine(a.layout, x, y, gy, k);
    }
  }

  /** The font bit as the drawing loops look it up. */
  function FontBit(a: Art, c: u8, fx: nat, gy: nat): bool {
    var l := a.layout;
    var glyph, fy := c * l.fontHeight * l.fontWidth, (if l.scaleY == 0 then 0 else gy / l.scaleY) % 0x100;
    glyph + fy * l.fontWidth + fx < |a.font| && a.font[glyph + fy * l.fontWidth + fx]
  }

  /** The pixel, canvas and font indices the drawing loops compute for a dot. */
  lemma GlyphDot(a: Art, c: u8, x: nat, y: nat, fx: nat, i: nat, gy: nat)
    requires a.Valid() && x < a.layout.cols && y < a.layout.rows
    requires i < a.layout.scaleX && fx < a.layout.fontWidth && gy < a.layout.glyphHeight
    ensures var l := a.layout; var gx := l.Column(fx) + i;
      && l.InGlyph(Spot(x, y, gx, gy))
      && var k := l.PixelAt(Spot(x, y, gx, gy));
      && k == l.LineStart(x, y, gy) + gx < l.Size()
      && a.CanvasIndex(k) == l.CanvasLineStart(x, y, gy) + gx < |a.canvas|
      && a.Dot(c, k) == FontBit(a, c, fx, gy)
  {
    var l := a.layout;
    var gx := l.Column(fx) + i;
    RowBound(i, fx, l.scaleX, l.fontWidth);
    Arithmetic.DivMod(fx, l.scaleX, i);
    SpotToPixel(l, Spot(x, y, gx, gy));
    CanvasBound(a, l.PixelAt(Spot(x, y, gx, gy)));
  }

  /** A dot that both glyphs share is already painted. */
  lemma {:induction false} PaintSkip(a: Art, pixels: seq<u32>, old_: Cell, c: Cell, x: nat, y: nat, fx: nat, gy: nat, n: nat)
    requires a.Valid() && x < a.layout.cols && y < a.layout.rows && |pixels| == a.layout.Size()
    requires n <= a.layout.scaleX && fx < a.layout.fontWidth && gy < a.layout.glyphHeight
    requires FontBit(a, old_.c, fx, gy) == FontBit(a, c.c, fx, gy)
    ensures a.Painting(pixels, Some(old_), c, x, y, a.layout.Column(fx) + n, gy)
         == a.Painting(pixels, Some(old_), c, x, y, a.layout.Column(fx), gy)
  {
    if n > 0 {
      PaintSkip(a, pixels, old_, c, x, y, fx, gy, n - 1);
      GlyphDot(a, old_.c, x, y, fx, n - 1, gy);
      GlyphDot(a, c.c, x, y, fx, n - 1, gy);
      PaintDot(a, pixels, Some(old_), c, x, y, a.layout.Column(fx) + n - 1, gy);
    }
  }

  lemma ColumnStep(l: Layout, fx: nat)
    ensures l.Column(fx + 1) == l.Column(fx) + l.scaleX && l.Column(0) == 0
  {
    Arithmetic.MulStep(l.scaleX, fx);
  }

  lemma LastColumn(l: Layout)
    requires l.Valid()
    ensures l.Column(l.fontWidth) == l.glyphWidth
  {
  }

  lemma LayoutFacts(l: Layout)
    requires l.Valid()
    ensures 1 <= l.stride && l.width <= l.stride
  {
  }

  lemma CopyIndex(a: Art, x: nat, y: nat)
    requires a.Valid() && x < a.layout.width && y < a.layout.height
    ensures var k := a.layout.Pixel(x, y); k < a.layout.Size() && a.CanvasIndex(k) == a.CanvasAt(x, y) < |a.canvas|
    ensures var k := a.layout.Pixel(x, y); a.layout.PixelX(k) == x && a.layout.PixelY(k) == y
  {
    RowBound(x, y, a.layout.stride, a.layout.height);
    RowBound(x, y, a.layout.width, a.layout.height);
    Arithmetic.DivMod(y, a.layout.stride, x);
  }

  /** Copying one more pixel of the canvas. */
  lemma CopyDot(a: Art, x: nat, y: nat, k: nat)
    requires a.Valid() && x < a.layout.width && y < a.layout.height
    ensures a.Copied(k, x + 1, y) <==> a.Copied(k, x, y) || k == a.layout.Pixel(x, y)
  {
    CopyIndex(a, x, y);
  }

  lemma CopyLine(a: Art, y: nat, k: nat)
    requires a.Valid()
    ensures a.Copied(k, a.layout.width, y) <==> a.Copied(k, 0, y + 1)
  {
  }

  lemma CopyEnd(a: Art, k: nat)
    requires a.Valid() && k < a.layout.Size()
    ensures a.Copied(k, 0, a.layout.height) <==> a.Visible(k)
  {
    DivLess(k, a.layout.height, a.layout.stride);
  }

  /** The layout that the initialisation computes: as many whole cells as fit inside the margins,
      centred. */
  function Fit(width: nat, height: nat, stride: nat, fontWidth: nat, fontHeight: nat, scaleX: nat, scaleY: nat,
               margin: nat): Layout
    requires 1 <= fontWidth * scaleX && 1 <= fontHeight * scaleY
    requires 2 * margin <= width && 2 * margin <= height
  {
    var glyphWidth, glyphHeight := fontWidth * scaleX, fontHeight * scaleY;
    Layout(width, height, stride,
           (width - margin * 2) / glyphWidth, (height - margin * 2) / glyphHeight,
           margin + (width - margin * 2) % glyphWidth / 2, margin + (height - margin * 2) % glyphHeight / 2,
           fontWidth, fontHeight, scaleX, scaleY, glyphWidth, glyphHeight)
  }

  /** The grid lies inside the margins, with room for no further column or row. */
  lemma FitValid(width: nat, height: nat, stride: nat, fontWidth: nat, fontHeight: nat, scaleX: nat, scaleY: nat, margin: nat)
    requires 1 <= fontWidth && 1 <= fontHeight && 1 <= scaleX && 1 <= scaleY
    requires 2 * margin + fontWidth * scaleX <= width < 0x8000_0000 && width <= stride
    requires 2 * margin + fontHeight * scaleY <= height < 0x8000_0000
    ensures 1 <= fontWidth * scaleX && 1 <= fontHeight * scaleY
    ensures var l := Fit(width, height, stride, fontWidth, fontHeight, scaleX, scaleY, margin);
      && l.Valid()
      && margin <= l.offsetX && l.offsetX + l.cols * l.glyphWidth <= width - margin
      && margin <= l.offsetY && l.offsetY + l.rows * l.glyphHeight <= height - margin
      && width - 2 * margin < (l.cols + 1) * l.glyphWidth
      && height - 2 * margin < (l.rows + 1) * l.glyphHeight
  {
    Arithmetic.MulMonotonic(1, fontWidth, scaleX);
    Arithmetic.MulMonotonic(1, fontHeight, scaleY);
    FitOne(width - margin * 2, fontWidth * scaleX);
    FitOne(height - margin * 2, fontHeight * scaleY);
  }

  lemma FitOne(room: nat, size: nat)
    requires 1 <= size <= room
    ensures 1 <= room / size <= room
    ensures room / size * size + room % size == room
    ensures room < (room / size + 1) * size
  {
    Arithmetic.MulStep(size, room / size);
    DivAtMost(room, size);
  }

  lemma DivAtMost(a: nat, d: nat)
    requires 1 <= d <= a
    ensures 1 <= a / d <= a
  {
    var q := a / d;
    assert q * d + a % d == a;
    Arithmetic.MulMonotonic(1, d, q);
  }

  // ---- The picture in terms of the arrays

  /** The word of a picture at pixel `(gx, gy)` of cell `(x, y)`: the foreground where the font is set and the background
      elsewhere, exchanged under an enabled cursor, and the canvas for the transparent colour. */
  ghost predicate DotShown(pixels: seq<u32>, canvas: seq<u32>, font: seq<bool>, l: Layout, lines: seq<seq<Cell>>,
                           cursorEnabled: bool, cursorX: nat, cursorY: nat, x: nat, y: nat, gx: nat, gy: nat)
    requires l.scaleX >= 1 && l.scaleY >= 1 && y < |lines| && x < |lines[y]|
  {
    var c, inverted := lines[y][x], cursorEnabled && x == cursorX && y == cursorY;
    var px: int, py: int := l.offsetX + x * l.glyphWidth + gx, l.offsetY + y * l.glyphHeight + gy;
    var dot: int := c.c * l.fontHeight * l.fontWidth + gy / l.scaleY % 256 * l.fontWidth + gx / l.scaleX;
    && 0 <= dot < |font| && 0 <= px + py * l.width < |canvas| && 0 <= px + py * l.stride < |pixels|
    && var colour := if font[dot] then (if inverted then c.bg else c.fg) else (if inverted then c.fg else c.bg);
    pixels[px + py * l.stride] == if colour == 0xffff_ffff then canvas[px + py * l.width] else colour
  }

  /** The word of a picture at a pixel outside the grid is that of the canvas. */
  ghost predicate MarginShown(pixels: seq<u32>, canvas: seq<u32>, l: Layout, px: nat, py: nat) {
    var i: int, j: int := px + py * l.width, px + py * l.stride;
    0 <= i < |canvas| && 0 <= j < |pixels| && pixels[j] == canvas[i]
  }

  predicate InGrid(l: Layout, px: nat, py: nat) {
    l.offsetX <= px < l.offsetX + l.cols * l.glyphWidth && l.offsetY <= py < l.offsetY + l.rows * l.glyphHeight
  }

  /** The whole picture. */
  ghost predicate PictureShown(pixels: seq<u32>, canvas: seq<u32>, font: seq<bool>, l: Layout, lines: seq<seq<Cell>>,
                               cursorEnabled: bool, cursorX: nat, cursorY: nat)
    requires l.scaleX >= 1 && l.scaleY >= 1
    requires |lines| == l.rows && forall y :: 0 <= y < l.rows ==> |lines[y]| == l.cols
  {
    && (forall x, y, gx, gy :: 0 <= x < l.cols && 0 <= y < l.rows && 0 <= gx < l.glyphWidth && 0 <= gy < l.glyphHeight ==>
          DotShown(pixels, canvas, font, l, lines, cursorEnabled, cursorX, cursorY, x, y, gx, gy))
    && (forall px, py :: 0 <= px < l.width && 0 <= py < l.height && !InGrid(l, px, py) ==> MarginShown(pixels, canvas, l, px, py))
  }

  /** The picture is drawn from scratch. */
  ghost predicate Rendered(a: Art, pixels: seq<u32>, lines: seq<seq<Cell>>, cursor: Option<(nat, nat)>) {
    && a.Valid() && |pixels| == a.layout.Size()
    && forall k {:trigger pixels[k]} :: 0 <= k < |pixels| && a.Visible(k) ==> pixels[k] == a.Render(lines, cursor, k)
  }

  lemma RenderShowsDot(a: Art, pixels: seq<u32>, lines: seq<seq<Cell>>, cursorEnabled: bool, cursorX: nat, cursorY: nat,
                       cursor: Option<(nat, nat)>, x: nat, y: nat, gx: nat, gy: nat)
    requires Rendered(a, pixels, lines, cursor) && a.layout.InGlyph(Spot(x, y, gx, gy)) && y < |lines| && x < |lines[y]|
    requires cursor == if cursorEnabled && cursorX < a.layout.cols && cursorY < a.layout.rows then Some((cursorX, cursorY)) else None
    ensures a.layout.scaleX >= 1 && a.layout.scaleY >= 1
    ensures DotShown(pixels, a.canvas, a.font, a.layout, lines, cursorEnabled, cursorX, cursorY, x, y, gx, gy)
  {
    var l := a.layout;
    var k := l.PixelAt(Spot(x, y, gx, gy));
    SpotToPixel(l, Spot(x, y, gx, gy));
    CanvasBound(a, k);
    DotInFont(l, lines[y][x].c, gx, gy);
    hide Layout.PixelX, Layout.PixelY, Layout.SpotOf, Layout.Inside;
    assert pixels[k] == a.Render(lines, cursor, k);
  }

  lemma RenderShowsMargin(a: Art, pixels: seq<u32>, lines: seq<seq<Cell>>, cursor: Option<(nat, nat)>, px: nat, py: nat)
    requires Rendered(a, pixels, lines, cursor) && px < a.layout.width && py < a.layout.height && !InGrid(a.layout, px, py)
    ensures MarginShown(pixels, a.canvas, a.layout, px, py)
  {
    var l := a.layout;
    var k := px + py * l.stride;
    RowBound(px, py, l.stride, l.height);
    Arithmetic.DivMod(py, l.stride, px);
    assert l.PixelX(k) == px && l.PixelY(k) == py && !l.Inside(k);
    CanvasBound(a, k);
    hide Layout.PixelX, Layout.PixelY, Layout.SpotOf, Layout.Inside;
    assert pixels[k] == a.Render(lines, cursor, k);
  }

  /** A picture drawn from scratch, dot by dot. */
  lemma RenderShows(a: Art, pixels: seq<u32>, lines: seq<seq<Cell>>, cursorEnabled: bool, cursorX: nat, cursorY: nat,
                    cursor: Option<(nat, nat)>)
    requires Rendered(a, pixels, lines, cursor)
    requires |lines| == a.layout.rows && forall y :: 0 <= y < a.layout.rows ==> |lines[y]| == a.layout.cols
    requires cursor == if cursorEnabled && cursorX < a.layout.cols && cursorY < a.layout.rows then Some((cursorX, cursorY)) else None
    ensures a.layout.scaleX >= 1 && a.layout.scaleY >= 1
    ensures PictureShown(pixels, a.canvas, a.font, a.layout, lines, cursorEnabled, cursorX, cursorY)
  {
    hide *;
    var l := a.layout;
    Scales(a, pixels, lines, cursor);
    forall x, y, gx, gy | 0 <= x < l.cols && 0 <= y < l.rows && 0 <= gx < l.glyphWidth && 0 <= gy < l.glyphHeight
      ensures DotShown(pixels, a.canvas, a.font, l, lines, cursorEnabled, cursorX, cursorY, x, y, gx, gy)
    {
      GlyphIs(l, x, y, gx, gy);
      RenderShowsDot(a, pixels, lines, cursorEnabled, cursorX, cursorY, cursor, x, y, gx, gy);
    }
    forall px, py | 0 <= px < l.width && 0 <= py < l.height && !InGrid(l, px, py)
      ensures MarginShown(pixels, a.canvas, l, px, py)
    {
      RenderShowsMargin(a, pixels, lines, cursor, px, py);
    }
    PictureIs(pixels, a.canvas, a.font, l, lines, cursorEnabled, cursorX, cursorY);
  }

  lemma Scales(a: Art, pixels: seq<u32>, lines: seq<seq<Cell>>, cursor: Option<(nat, nat)>)
    requires Rendered(a, pixels, lines, cursor)
    ensures a.layout.scaleX >= 1 && a.layout.scaleY >= 1
  {
  }

  lemma GlyphIs(l: Layout, x: nat, y: nat, gx: nat, gy: nat)
    ensures l.InGlyph(Spot(x, y, gx, gy)) <==> x < l.cols && y < l.rows && gx < l.glyphWidth && gy < l.glyphHeight
  {
  }

  lemma PictureIs(pixels: seq<u32>, canvas: seq<u32>, font: seq<bool>, l: Layout, lines: seq<seq<Cell>>,
                  cursorEnabled: bool, cursorX: nat, cursorY: nat)
    requires l.scaleX >= 1 && l.scaleY >= 1
    requires |lines| == l.rows && forall y :: 0 <= y < l.rows ==> |lines[y]| == l.cols
    requires forall x, y, gx, gy :: 0 <= x < l.cols && 0 <= y < l.rows && 0 <= gx < l.glyphWidth && 0 <= gy < l.glyphHeight ==>
      DotShown(pixels, canvas, font, l, lines, cursorEnabled, cursorX, cursorY, x, y, gx, gy)
    requires forall px, py :: 0 <= px < l.width && 0 <= py < l.height && !InGrid(l, px, py) ==> MarginShown(pixels, canvas, l, px, py)
    ensures PictureShown(pixels, canvas, font, l, lines, cursorEnabled, cursorX, cursorY)
  {
    hide DotShown, MarginShown;
  }
}
