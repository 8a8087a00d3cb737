/**
 The three places of a cell: the drawn grid, the queue of pending changes, and the map from each
 cell to its queue item. `Overlay` is the logical screen they describe.
 */
module Pending {
  import opened DisplayModel
  import Arithmetic
  import Geometry

  /** `struct flanterm_fb_queue_item`. */
  datatype QueueItem = QueueItem(x: nat, y: nat, c: Cell)

  /** An entry of `map`: NULL, or a pointer into the queue. */
  datatype Slot = Null | Item(index: nat)

  function Times(y: nat, cols: nat): nat {
    y * cols
  }

  /** The column and the row of a linear cell number. */
  function ColumnOf(i: nat, cols: nat): nat
    requires cols >= 1
  {
    i % cols
  }

  function RowOf(i: nat, cols: nat): nat
    requires cols >= 1
  {
    i / cols
  }

  /** The linear number of a cell. */
  function Index(x: nat, y: nat, cols: nat): nat {
    y * cols + x
  }

  function Offset(q: QueueItem, cols: nat): nat {
    Index(q.x, q.y, cols)
  }

  /** Writes one cell of a linear screen; a position outside the grid is ignored. */
  function PutFlat(flat: seq<Cell>, c: Cell, x: nat, y: nat, cols: nat, rows: nat): (r: seq<Cell>)
    ensures |r| == |flat|
  {
    if x < cols && y < rows && Index(x, y, cols) < |flat| then flat[Index(x, y, cols) := c] else flat
  }

  /** Queue items and map entries point at each other. */
  ghost predicate Linked(queue: seq<QueueItem>, count: nat, map_: seq<Slot>, cols: nat, rows: nat) {
    && count <= |queue|
    && (forall k :: 0 <= k < count ==>
          && queue[k].x < cols && queue[k].y < rows
          && Offset(queue[k], cols) < |map_| && map_[Offset(queue[k], cols)] == Item(k))
    && (forall i :: 0 <= i < |map_| && map_[i].Item? ==>
          map_[i].index < count && Offset(queue[map_[i].index], cols) == i)
  }

  /** The queued value of a cell if there is one, else the drawn one. */
  function Pick(grid: seq<Cell>, queue: seq<QueueItem>, map_: seq<Slot>, i: nat): Cell
    requires i < |grid| == |map_|
  {
    if map_[i].Item? && map_[i].index < |queue| then queue[map_[i].index].c else grid[i]
  }

  ghost function Overlay(grid: seq<Cell>, queue: seq<QueueItem>, map_: seq<Slot>): (flat: seq<Cell>)
    requires |grid| == |map_|
    ensures |flat| == |grid| && forall i :: 0 <= i < |grid| ==> flat[i] == Pick(grid, queue, map_, i)
  {
    seq(|grid|, i requires 0 <= i < |grid| => Pick(grid, queue, map_, i))
  }

  /** Linear cells as lines. */
  ghost function Table(flat: seq<Cell>, cols: nat, rows: nat): (lines: seq<seq<Cell>>)
    requires |flat| == Times(rows, cols)
    ensures |lines| == rows && forall y :: 0 <= y < rows ==> |lines[y]| == cols
  {
    seq(rows, y requires 0 <= y < rows => seq(cols, x requires 0 <= x < cols => Nth(flat, cols, rows, x, y)))
  }

  ghost function Nth(flat: seq<Cell>, cols: nat, rows: nat, x: nat, y: nat): Cell
    requires |flat| == Times(rows, cols) && x < cols && y < rows
  {
    Geometry.RowBound(x, y, cols, rows);
    flat[Index(x, y, cols)]
  }

  /** The same cell of both forms. */
  lemma TableAt(flat: seq<Cell>, cols: nat, rows: nat, x: nat, y: nat)
    requires |flat| == Times(rows, cols) && x < cols && y < rows
    ensures Index(x, y, cols) < |flat| && Table(flat, cols, rows)[y][x] == flat[Index(x, y, cols)]
  {
    Geometry.RowBound(x, y, cols, rows);
  }

  lemma IndexInjective(cols: nat, x: nat, y: nat, x': nat, y': nat)
    requires x < cols && x' < cols && Index(x, y, cols) == Index(x', y', cols)
    ensures x == x' && y == y'
  {
    Arithmetic.DivMod(y, cols, x);
    Arithmetic.DivMod(y', cols, x');
  }

  /** Writing a cell of the linear form writes the same cell of the lines. */
  lemma TablePut(flat: seq<Cell>, cols: nat, rows: nat, x: nat, y: nat, c: Cell)
    requires |flat| == Times(rows, cols)
    ensures var t := Table(flat, cols, rows);
      Table(PutFlat(flat, c, x, y, cols, rows), cols, rows)
      == if x < cols && y < rows then t[y := t[y][x := c]] else t
  {
    hide Table, Index;
    if x < cols && y < rows {
      var flat' := PutFlat(flat, c, x, y, cols, rows);
      var t, t' := Table(flat, cols, rows), Table(flat', cols, rows);
      TableAt(flat, cols, rows, x, y);
      forall y', x' | 0 <= y' < rows && 0 <= x' < cols
        ensures t'[y'][x'] == t[y := t[y][x := c]][y'][x']
      {
        TableAt(flat, cols, rows, x', y');
        TableAt(flat', cols, rows, x', y');
        if Index(x, y, cols) == Index(x', y', cols) {
          IndexInjective(cols, x, y, x', y');
        }
      }
      SameLines(t', t[y := t[y][x := c]], cols);
    }
  }

  /** Two screens are equal when all their cells are. */
  lemma SameLines(s: seq<seq<Cell>>, t: seq<seq<Cell>>, cols: nat)
    requires |s| == |t|
    requires forall y :: 0 <= y < |s| ==> |s[y]| == cols && |t[y]| == cols
    requires forall y, x :: 0 <= y < |s| && 0 <= x < cols ==> s[y][x] == t[y][x]
    ensures s == t
  {
    forall y | 0 <= y < |s|
      ensures s[y] == t[y]
    {
    }
  }

  function Upto(n: nat): (s: set<nat>)
    ensures |s| == n && forall i :: i in s <==> 0 <= i < n
  {
    if n == 0 then {} else Upto(n - 1) + {n - 1}
  }

  /** The cells of the first `count` queue items. */
  ghost function Occupied(queue: seq<QueueItem>, count: nat, cols: nat): set<nat>
    requires count <= |queue|
  {
    set k | 0 <= k < count :: Offset(queue[k], cols)
  }

  lemma {:induction false} OccupiedSize(queue: seq<QueueItem>, count: nat, map_: seq<Slot>, cols: nat, rows: nat, k: nat)
    requires Linked(queue, count, map_, cols, rows) && k <= count
    ensures |Occupied(queue, k, cols)| == k
  {
    if k > 0 {
      OccupiedSize(queue, count, map_, cols, rows, k - 1);
      assert Occupied(queue, k, cols) == Occupied(queue, k - 1, cols) + {Offset(queue[k - 1], cols)};
    }
  }

  /** Queued items occupy distinct cells, so an unqueued cell leaves a free queue item. */
  lemma RoomForOneMore(queue: seq<QueueItem>, count: nat, map_: seq<Slot>, cols: nat, rows: nat, i: nat)
    requires Linked(queue, count, map_, cols, rows)
    requires i < |map_| && map_[i] == Null
    ensures count < |map_|
  {
    OccupiedSize(queue, count, map_, cols, rows, count);
    SubsetSize(Occupied(queue, count, cols), Upto(|map_|) - {i});
  }

  /** The queue is never longer than the grid. */
  lemma QueueFits(queue: seq<QueueItem>, count: nat, map_: seq<Slot>, cols: nat, rows: nat)
    requires Linked(queue, count, map_, cols, rows)
    ensures count <= |map_|
  {
    OccupiedSize(queue, count, map_, cols, rows, count);
    SubsetSize(Occupied(queue, count, cols), Upto(|map_|));
  }

  lemma {:induction false} SubsetSize(a: set<nat>, b: set<nat>)
    requires a <= b
    ensures |a| <= |b|
  {
    if a != {} {
      var e :| e in a;
      SubsetSize(a - {e}, b - {e});
    }
  }

  /** Queueing a cell that is not pending changes that cell of the logical screen alone. */
  lemma AppendItem(grid: seq<Cell>, queue: seq<QueueItem>, count: nat, map_: seq<Slot>, cols: nat, rows: nat, q: QueueItem)
    requires Linked(queue, count, map_, cols, rows) && |grid| == |map_| && count < |queue|
    requires q.x < cols && q.y < rows && Offset(q, cols) < |map_| && map_[Offset(q, cols)] == Null
    ensures var queue', map' := queue[count := q], map_[Offset(q, cols) := Item(count)];
      && Linked(queue', count + 1, map', cols, rows)
      && Overlay(grid, queue', map') == Overlay(grid, queue, map_)[Offset(q, cols) := q.c]
  {
    var o := Offset(q, cols);
    var queue', map' := queue[count := q], map_[o := Item(count)];
    forall i | 0 <= i < |grid|
      ensures Pick(grid, queue', map', i) == if i == o then q.c else Pick(grid, queue, map_, i)
    {
    }
  }

  /** Overwriting a pending item changes its cell of the logical screen alone. */
  lemma UpdateItem(grid: seq<Cell>, queue: seq<QueueItem>, count: nat, map_: seq<Slot>, cols: nat, rows: nat, i: nat, c: Cell)
    requires Linked(queue, count, map_, cols, rows) && |grid| == |map_|
    requires i < |map_| && map_[i].Item?
    ensures map_[i].index < count <= |queue|
    ensures var queue' := queue[map_[i].index := queue[map_[i].index].(c := c)];
      && Linked(queue', count, map_, cols, rows)
      && Overlay(grid, queue', map_) == Overlay(grid, queue, map_)[i := c]
  {
    var k := map_[i].index;
    var queue' := queue[k := queue[k].(c := c)];
    forall j | 0 <= j < |grid|
      ensures Pick(grid, queue', map_, j) == if j == i then c else Pick(grid, queue, map_, j)
    {
    }
  }

  lemma PickDrawn(grid: seq<Cell>, queue: seq<QueueItem>, map_: seq<Slot>, i: nat)
    requires |grid| == |map_| && i < |map_| && map_[i] == Null
    ensures Overlay(grid, queue, map_)[i] == grid[i]
  {
  }
}
