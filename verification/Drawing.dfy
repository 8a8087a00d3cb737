/**
 One step of a flush, on the values of the arrays: how drawing one queued cell changes the picture,
 and how it takes the cell out of the map.
 */
module Drawing {
  import opened Words
  import opened DisplayModel
  import opened Geometry
  import opened Pending
  import opened Shifts

  /** Every visible pixel has its from-scratch colour, except perhaps those of the cell `(x, y)`. */
  ghost predicate Faithful(a: Art, pixels: seq<u32>, grid: seq<Cell>, cursor: Option<(nat, nat)>, x: nat, y: nat)
    requires |grid| == Times(a.layout.rows, a.layout.cols)
  {
    forall k :: 0 <= k < |pixels| && a.Visible(k) && (!a.layout.InCell(k, x, y) || cursor == Some((x, y))) ==>
      pixels[k] == a.Render(Table(grid, a.layout.cols, a.layout.rows), cursor, k)
  }

  /** Changing one cell of the grid changes the from-scratch picture in that cell alone. */
  lemma RenderPut(a: Art, grid: seq<Cell>, cursor: Option<(nat, nat)>, c: Cell, x: nat, y: nat, k: nat)
    requires a.Valid() && |grid| == Times(a.layout.rows, a.layout.cols)
    requires x < a.layout.cols && y < a.layout.rows
    ensures var l := a.layout;
      a.Render(Table(PutFlat(grid, c, x, y, l.cols, l.rows), l.cols, l.rows), cursor, k)
      == if l.InCell(k, x, y) then a.Ink(if cursor == Some((x, y)) then Inverted(c) else c, k)
         else a.Render(Table(grid, l.cols, l.rows), cursor, k)
  {
    var l := a.layout;
    TablePut(grid, l.cols, l.rows, x, y, c);
    if l.Inside(k) {
      PixelToSpot(l, k);
    }
    hide Layout.Valid, Layout.SpotOf, Layout.Inside, Table, PutFlat, Art.Ink;
  }

  /** In a cell of the grid, the from-scratch picture is the ink of that cell. */
  lemma RenderCell(a: Art, grid: seq<Cell>, cursor: Option<(nat, nat)>, x: nat, y: nat, k: nat)
    requires a.Valid() && |grid| == Times(a.layout.rows, a.layout.cols)
    requires a.layout.InCell(k, x, y)
    ensures x < a.layout.cols && y < a.layout.rows && Index(x, y, a.layout.cols) < |grid|
    ensures var c := grid[Index(x, y, a.layout.cols)];
      a.Render(Table(grid, a.layout.cols, a.layout.rows), cursor, k)
      == a.Ink(if cursor == Some((x, y)) then Inverted(c) else c, k)
  {
    PixelToSpot(a.layout, k);
    TableAt(grid, a.layout.cols, a.layout.rows, x, y);
  }

  /** Repainting only the dots that differ gives the whole new glyph, when the old one was there in the
      same colours. */
  lemma FastPaint(a: Art, old_: Cell, c: Cell, k: nat)
    requires old_.fg == c.fg && old_.bg == c.bg
    ensures !a.Writes(Some(old_), c, k) ==> a.Ink(old_, k) == a.Ink(c, k)
  {
  }

  /** Drawing one cell from scratch. */
  lemma DrawnWhole(a: Art, pixels: seq<u32>, grid: seq<Cell>, before: Option<(nat, nat)>, cursor: Option<(nat, nat)>,
                   x: nat, y: nat, c: Cell, cx: nat, cy: nat)
    requires a.Valid() && |grid| == Times(a.layout.rows, a.layout.cols)
    requires Faithful(a, pixels, grid, before, x, y)
    requires cx < a.layout.cols && cy < a.layout.rows
    requires before == cursor || (before == None && cursor == Some((cx, cy)))
    ensures var shown := if cursor == Some((cx, cy)) then Inverted(c) else c;
      Faithful(a, a.Painted(pixels, None, shown, cx, cy), PutFlat(grid, c, cx, cy, a.layout.cols, a.layout.rows), cursor, x, y)
  {
    hide Layout.Valid, Layout.InCell, Table, PutFlat, Art.Ink, Art.Visible;
    var l := a.layout;
    var shown := if cursor == Some((cx, cy)) then Inverted(c) else c;
    var pixels' := a.Painted(pixels, None, shown, cx, cy);
    var grid' := PutFlat(grid, c, cx, cy, l.cols, l.rows);
    forall k | 0 <= k < |pixels'| && a.Visible(k) && (!l.InCell(k, x, y) || cursor == Some((x, y)))
      ensures pixels'[k] == a.Render(Table(grid', l.cols, l.rows), cursor, k)
    {
      RenderPut(a, grid, cursor, c, cx, cy, k);
      if !l.InCell(k, cx, cy) {
        CursorElsewhere(a, grid, before, cursor, cx, cy, k);
      }
    }
  }

  /** Adding the cursor changes its own cell alone. */
  lemma CursorElsewhere(a: Art, grid: seq<Cell>, before: Option<(nat, nat)>, cursor: Option<(nat, nat)>, cx: nat, cy: nat, k: nat)
    requires a.Valid() && |grid| == Times(a.layout.rows, a.layout.cols)
    requires !a.layout.InCell(k, cx, cy)
    requires before == cursor || (before == None && cursor == Some((cx, cy)))
    ensures a.Render(Table(grid, a.layout.cols, a.layout.rows), before, k)
         == a.Render(Table(grid, a.layout.cols, a.layout.rows), cursor, k)
  {
    hide Table, Art.Ink;
  }

  /** Drawing one queued cell over a picture that may be stale in one cell. */
  lemma DrawnFast(a: Art, pixels: seq<u32>, grid: seq<Cell>, cursor: Option<(nat, nat)>, x: nat, y: nat, c: Cell, cx: nat, cy: nat)
    requires a.Valid() && |grid| == Times(a.layout.rows, a.layout.cols)
    requires Faithful(a, pixels, grid, cursor, x, y)
    requires cx < a.layout.cols && cy < a.layout.rows && cursor != Some((cx, cy))
    requires Index(cx, cy, a.layout.cols) < |grid|
    requires var old_ := grid[Index(cx, cy, a.layout.cols)]; old_.fg == c.fg && old_.bg == c.bg
    ensures Faithful(a, a.Painted(pixels, Some(grid[Index(cx, cy, a.layout.cols)]), c, cx, cy),
                     PutFlat(grid, c, cx, cy, a.layout.cols, a.layout.rows), cursor, x, y)
  {
    hide Layout.Valid, Layout.InCell, Table, PutFlat, Index, Art.Ink, Art.Visible, Art.Writes;
    var l := a.layout;
    var old_ := grid[Index(cx, cy, l.cols)];
    var pixels' := a.Painted(pixels, Some(old_), c, cx, cy);
    var grid' := PutFlat(grid, c, cx, cy, l.cols, l.rows);
    forall k | 0 <= k < |pixels'| && a.Visible(k) && (!l.InCell(k, x, y) || cursor == Some((x, y)))
      ensures pixels'[k] == a.Render(Table(grid', l.cols, l.rows), cursor, k)
    {
      RenderPut(a, grid, cursor, c, cx, cy, k);
      if l.InCell(k, cx, cy) {
        RenderCell(a, grid, cursor, cx, cy, k);
        FastPaint(a, old_, c, k);
      }
    }
  }

  /** Drawing the stale cell from scratch leaves no stale cell. */
  lemma Repaired(a: Art, pixels: seq<u32>, grid: seq<Cell>, cursor: Option<(nat, nat)>, x: nat, y: nat)
    requires a.Valid() && |grid| == Times(a.layout.rows, a.layout.cols)
    requires Faithful(a, pixels, grid, cursor, x, y)
    requires cursor != Some((x, y)) && x < a.layout.cols && y < a.layout.rows && Index(x, y, a.layout.cols) < |grid|
    ensures forall k {:trigger a.Visible(k)} :: 0 <= k < |pixels| && a.Visible(k) ==>
      a.Painted(pixels, None, grid[Index(x, y, a.layout.cols)], x, y)[k]
      == a.Render(Table(grid, a.layout.cols, a.layout.rows), cursor, k)
  {
    hide Layout.Valid, Layout.InCell, Table, Index, Art.Ink, Art.Visible;
    var l := a.layout;
    forall k | 0 <= k < |pixels| && a.Visible(k)
      ensures a.Painted(pixels, None, grid[Index(x, y, l.cols)], x, y)[k] == a.Render(Table(grid, l.cols, l.rows), cursor, k)
    {
      if l.InCell(k, x, y) {
        RenderCell(a, grid, cursor, x, y, k);
      }
    }
  }

  /** The links while a flush is at queue item `j`: later items are linked or already taken out. */
  ghost predicate Draining(queue: seq<QueueItem>, count: nat, map_: seq<Slot>, cols: nat, rows: nat, j: nat) {
    && j <= count <= |queue|
    && (forall k :: j <= k < count ==>
          && queue[k].x < cols && queue[k].y < rows && Offset(queue[k], cols) < |map_|
          && (map_[Offset(queue[k], cols)] == Null || map_[Offset(queue[k], cols)] == Item(k)))
    && (forall i :: 0 <= i < |map_| && map_[i].Item? ==>
          j <= map_[i].index < count && Offset(queue[map_[i].index], cols) == i)
  }

  /** Drawing a pending cell and unlinking it does not change the logical screen. */
  lemma Unlink(grid: seq<Cell>, queue: seq<QueueItem>, count: nat, map_: seq<Slot>, cols: nat, rows: nat, j: nat, i: nat)
    requires Draining(queue, count, map_, cols, rows, j) && |grid| == |map_|
    requires i < |map_| && map_[i].Item?
    ensures map_[i].index < count <= |queue| && queue[map_[i].index].x < cols && queue[map_[i].index].y < rows
    ensures Offset(queue[map_[i].index], cols) == i
    ensures var c := queue[map_[i].index].c;
      && Overlay(grid[i := c], queue, map_[i := Null]) == Overlay(grid, queue, map_)
      && Overlay(grid, queue, map_)[i] == c
      && Draining(queue, count, map_[i := Null], cols, rows, j)
  {
    var grid', map' := grid[i := queue[map_[i].index].c], map_[i := Null];
    hide Offset;
    forall n | 0 <= n < |grid|
      ensures Pick(grid', queue, map', n) == Pick(grid, queue, map_, n)
    {
    }
  }

  /** A queue item whose cell is not linked is passed over. */
  lemma Skip(queue: seq<QueueItem>, count: nat, map_: seq<Slot>, cols: nat, rows: nat, j: nat)
    requires Draining(queue, count, map_, cols, rows, j) && j < count
    ensures Offset(queue[j], cols) < |map_|
    ensures map_[Offset(queue[j], cols)] == Null ==> Draining(queue, count, map_, cols, rows, j + 1)
  {
    hide Offset;
  }

  /** Once every item has been passed nothing is pending. */
  lemma Drained(grid: seq<Cell>, queue: seq<QueueItem>, count: nat, map_: seq<Slot>, cols: nat, rows: nat)
    requires Draining(queue, count, map_, cols, rows, count) && |grid| == |map_|
    ensures (forall i :: 0 <= i < |map_| ==> map_[i] == Null) && Overlay(grid, queue, map_) == grid
    ensures Linked(queue, 0, map_, cols, rows)
  {
  }

  /** Linked arrays can be drained from the start. */
  lemma StartDraining(queue: seq<QueueItem>, count: nat, map_: seq<Slot>, cols: nat, rows: nat)
    requires Linked(queue, count, map_, cols, rows)
    ensures Draining(queue, count, map_, cols, rows, 0)
  {
  }

  /** No pixel lies in a cell outside the grid, so nothing is stale there. */
  lemma NothingStale(a: Art, pixels: seq<u32>, grid: seq<Cell>, cursor: Option<(nat, nat)>, x: nat, y: nat)
    requires a.Valid() && |grid| == Times(a.layout.rows, a.layout.cols)
    requires Faithful(a, pixels, grid, cursor, x, y)
    requires cursor == Some((x, y)) || x >= a.layout.cols || y >= a.layout.rows
    ensures forall k {:trigger a.Visible(k)} :: 0 <= k < |pixels| && a.Visible(k) ==>
      pixels[k] == a.Render(Table(grid, a.layout.cols, a.layout.rows), cursor, k)
  {
    forall k | 0 <= k < |pixels| && a.Visible(k)
      ensures !a.layout.InCell(k, x, y) || cursor == Some((x, y))
    {
      if a.layout.Inside(k) {
        PixelToSpot(a.layout, k);
      }
    }
  }

  /** A picture with the cursor drawn is stale, as a picture without it, in the cursor's cell alone. */
  lemma StaleAtCursor(a: Art, pixels: seq<u32>, grid: seq<Cell>, cursor: Option<(nat, nat)>, x: nat, y: nat)
    requires a.Valid() && |grid| == Times(a.layout.rows, a.layout.cols)
    requires cursor == None || cursor == Some((x, y))
    requires forall k {:trigger a.Visible(k)} :: 0 <= k < |pixels| && a.Visible(k) ==>
      pixels[k] == a.Render(Table(grid, a.layout.cols, a.layout.rows), cursor, k)
    ensures Faithful(a, pixels, grid, None, x, y)
  {
    hide Table, Art.Ink;
  }

  /** The canvas, and the cells before linear cell `i`, are drawn. */
  ghost predicate Laid(a: Art, pixels: seq<u32>, grid: seq<Cell>, i: nat)
    requires |grid| == Times(a.layout.rows, a.layout.cols)
  {
    forall k {:trigger a.Visible(k)} :: 0 <= k < |pixels| && a.Visible(k) ==>
      (!a.layout.Inside(k) || Index(a.layout.SpotOf(k).x, a.layout.SpotOf(k).y, a.layout.cols) < i) ==>
      pixels[k] == a.Render(Table(grid, a.layout.cols, a.layout.rows), None, k)
  }

  lemma StartLaying(a: Art, pixels: seq<u32>, grid: seq<Cell>)
    requires |grid| == Times(a.layout.rows, a.layout.cols)
    requires forall k :: 0 <= k < |pixels| && a.Visible(k) ==> pixels[k] == a.Under(k)
    ensures Laid(a, pixels, grid, 0)
  {
    hide Table, Index, Art.Ink;
  }

  lemma LayStep(a: Art, pixels: seq<u32>, grid: seq<Cell>, i: nat)
    requires a.Valid() && |grid| == Times(a.layout.rows, a.layout.cols) && i < |grid| && 1 <= a.layout.cols
    requires Laid(a, pixels, grid, i)
    ensures ColumnOf(i, a.layout.cols) < a.layout.cols && RowOf(i, a.layout.cols) < a.layout.rows
    ensures Laid(a, a.Painted(pixels, None, grid[i], ColumnOf(i, a.layout.cols), RowOf(i, a.layout.cols)), grid, i + 1)
  {
    var l := a.layout;
    CellOf(i, l.cols, l.rows);
    var x, y := ColumnOf(i, l.cols), RowOf(i, l.cols);
    var pixels' := a.Painted(pixels, None, grid[i], x, y);
    hide Table, Index, Art.Ink, Art.Visible, Layout.Valid, ColumnOf, RowOf, Times, Layout.SpotOf, Layout.Inside;
    forall k | 0 <= k < |pixels'| && a.Visible(k)
      && (!l.Inside(k) || Index(l.SpotOf(k).x, l.SpotOf(k).y, l.cols) < i + 1)
      ensures pixels'[k] == a.Render(Table(grid, l.cols, l.rows), None, k)
    {
      if l.InCell(k, x, y) {
        RenderCell(a, grid, None, x, y, k);
      } else if l.Inside(k) {
        PixelToSpot(l, k);
        if Index(l.SpotOf(k).x, l.SpotOf(k).y, l.cols) == i {
          IndexInjective(l.cols, l.SpotOf(k).x, l.SpotOf(k).y, x, y);
        }
      }
    }
  }

  lemma LaidAll(a: Art, pixels: seq<u32>, grid: seq<Cell>, x: nat, y: nat)
    requires a.Valid() && |grid| == Times(a.layout.rows, a.layout.cols)
    requires Laid(a, pixels, grid, |grid|)
    ensures Faithful(a, pixels, grid, None, x, y)
  {
    forall k | 0 <= k < |pixels| && a.Visible(k) && a.layout.Inside(k)
      ensures Index(a.layout.SpotOf(k).x, a.layout.SpotOf(k).y, a.layout.cols) < |grid|
    {
      PixelToSpot(a.layout, k);
      RowBound(a.layout.SpotOf(k).x, a.layout.SpotOf(k).y, a.layout.cols, a.layout.rows);
    }
    hide Table, Index, Art.Ink, Art.Visible, Layout.Valid, Times;
  }

  /** Clearing a map entry leaves the arrays linked exactly when the entry was empty. */
  lemma BrokenLink(queue: seq<QueueItem>, count: nat, map_: seq<Slot>, cols: nat, rows: nat, i: nat)
    requires Linked(queue, count, map_, cols, rows) && i < |map_|
    ensures Linked(queue, count, map_[i := Null], cols, rows) <==> map_[i] == Null
  {
    if map_[i] == Null {
      assert map_[i := Null] == map_;
    } else {
      assert Offset(queue[map_[i].index], cols) == i;
    }
  }

  lemma NothingPending(grid: seq<Cell>, queue: seq<QueueItem>, map_: seq<Slot>, cols: nat, rows: nat, c: Cell)
    requires |grid| == |map_| == Times(rows, cols)
    requires forall i :: 0 <= i < |grid| ==> map_[i] == Null && grid[i] == c
    ensures Overlay(grid, queue, map_) == grid
    ensures Table(grid, cols, rows) == seq(rows, _ => seq(cols, _ => c))
  {
    var t := Table(grid, cols, rows);
    forall y, x | 0 <= y < rows && 0 <= x < cols
      ensures t[y][x] == c
    {
      TableAt(grid, cols, rows, x, y);
    }
    SameLines(t, seq(rows, _ => seq(cols, _ => c)), cols);
  }
}
