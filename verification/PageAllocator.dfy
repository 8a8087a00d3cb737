/**
 The physical page allocator (`src/mm/pmm.c`): a next-fit scan over the page bitmap.

 A page is free when its bit is clear. The scan starts where the last one ended and does not wrap
 around; freeing a block moves the scan back to it.
 */
module PageAllocator {
  import opened Bitmap

  const PAGE_SIZE: nat := 4096

  /** The pages `s`, ..., `s + n - 1`. */
  function Range(s: nat, n: nat): (r: set<nat>)
    ensures forall p :: p in r <==> s <= p < s + n
    ensures |r| == n
  {
    if n == 0 then {} else Range(s, n - 1) + {s + n - 1}
  }

  // ---- The scan

  /** `n` free pages in a row, the first one being `s`. */
  predicate IsRun(free: set<nat>, pages: nat, n: nat, s: nat) {
    s + n <= pages && forall p :: s <= p < s + n ==> p in free
  }

  ghost predicate HasRun(free: set<nat>, pages: nat, n: nat, from: nat) {
    exists s :: from <= s && IsRun(free, pages, n, s)
  }

  /** The loop of `pmm_alloc`: where it stops, and how many free pages end there. */
  function Scan(free: set<nat>, pages: nat, n: nat, index: nat, count: nat): (r: (nat, nat))
    requires count <= n && count <= index
    ensures r.1 <= n && r.1 <= r.0
    decreases pages - index
  {
    if index >= pages || count == n then (index, count)
    else if index in free then Scan(free, pages, n, index + 1, count + 1)
    else Scan(free, pages, n, index + 1, 0)
  }

  /** The scan has passed every run that starts before the free pages it is counting. */
  ghost predicate Scanning(free: set<nat>, pages: nat, n: nat, from: nat, index: nat, count: nat) {
    && from + count <= index && count <= n && index <= pages
    && (forall p :: index - count <= p < index ==> p in free)
    && (forall s :: from <= s < index - count ==> !IsRun(free, pages, n, s))
  }

  lemma RunIs(free: set<nat>, pages: nat, n: nat, s: nat)
    ensures PAGE_SIZE == 0x1000 && (IsRun(free, pages, n, s) <==> s + n <= pages && forall p :: s <= p < s + n ==> p in free)
  {
  }

  lemma ScanningStep(free: set<nat>, pages: nat, n: nat, from: nat, index: nat, count: nat)
    requires Scanning(free, pages, n, from, index, count) && index < pages && count < n
    ensures Scanning(free, pages, n, from, index + 1, if index in free then count + 1 else 0)
  {
    if index !in free {
      forall s | from <= s < index + 1
        ensures !IsRun(free, pages, n, s)
      {
        if s >= index - count {
          assert s <= index < s + n;
        }
      }
    }
  }

  /** The scan finds the lowest run, and finds one exactly when there is one: otherwise the block it
      yields sticks out of the memory. */
  lemma {:induction false} ScanFinds(free: set<nat>, pages: nat, n: nat, from: nat, index: nat, count: nat)
    requires Scanning(free, pages, n, from, index, count)
    ensures var (i, f) := Scan(free, pages, n, index, count);
      && (f == n <==> HasRun(free, pages, n, from))
      && (f == n ==> from <= i - n && IsRun(free, pages, n, i - n) && forall s :: from <= s < i - n ==> !IsRun(free, pages, n, s))
      && (f < n ==> i == pages && i - f + n > pages)
    decreases pages - index
  {
    if count == n {
      assert IsRun(free, pages, n, index - n);
    } else if index >= pages {
      forall s | from <= s
        ensures !IsRun(free, pages, n, s)
      {
      }
    } else {
      ScanningStep(free, pages, n, from, index, count);
      ScanFinds(free, pages, n, from, index + 1, if index in free then count + 1 else 0);
    }
  }

  /** The run that an allocation takes. */
  lemma LowestRun(free: set<nat>, pages: nat, n: nat, from: nat) returns (s: nat)
    requires from <= pages && HasRun(free, pages, n, from)
    ensures Scan(free, pages, n, from, 0) == (s + n, n)
    ensures from <= s && s + n <= pages && IsRun(free, pages, n, s) && forall s' :: from <= s' < s ==> !IsRun(free, pages, n, s')
  {
    ScanFinds(free, pages, n, from, from, 0);
    s := Scan(free, pages, n, from, 0).0 - n;
    hide Scan;
  }

  lemma AddressOf(page: nat)
    ensures page * PAGE_SIZE % PAGE_SIZE == 0 && page * PAGE_SIZE / PAGE_SIZE == page
  {
  }

  lemma Aligned(base: nat, length: nat, size: nat, limit: nat)
    requires base % PAGE_SIZE == 0 && length % PAGE_SIZE == 0 && size % PAGE_SIZE == 0 && size <= length && base + length <= limit
    ensures (base + size) % PAGE_SIZE == 0 && (length - size) % PAGE_SIZE == 0 && base + length <= limit / PAGE_SIZE * PAGE_SIZE
  {
  }

  // ---- Runs of the allocator

  datatype Block = Block(start: nat, n: nat)

  /** The free pages, the scan index, and the blocks handed out. */
  datatype Heap = Heap(free: set<nat>, index: nat, live: seq<Block>)

  datatype Operation = Allocate(n: nat) | Release(k: nat)

  function BlockPages(b: Block): set<nat> {
    Range(b.start, b.n)
  }

  /** The state after one call. A release names one of the blocks handed out. */
  function Step(h: Heap, pages: nat, op: Operation): (r: Heap)
    requires Possible(h, pages, op)
  {
    match op
    case Allocate(n) =>
      var (i, f) := Scan(h.free, pages, n, h.index, 0);
      Heap(h.free - Range(i - f, n), i, h.live + [Block(i - f, n)])
    case Release(k) =>
      Heap(h.free + BlockPages(h.live[k]), h.live[k].start, h.live[..k] + h.live[k + 1..])
  }

  /** The allocator has no working failure path: a run must exist at or after the scan index. */
  ghost predicate Possible(h: Heap, pages: nat, op: Operation) {
    match op
    case Allocate(n) => h.index <= pages && HasRun(h.free, pages, n, h.index)
    case Release(k) => k < |h.live|
  }

  /** Blocks handed out are pairwise disjoint, and with the free pages make up exactly `all`. */
  ghost predicate Consistent(h: Heap, pages: nat, all: set<nat>) {
    && h.index <= pages && (forall p :: p in all ==> p < pages)
    && h.free <= all
    && (forall i :: 0 <= i < |h.live| ==> BlockPages(h.live[i]) !! h.free && BlockPages(h.live[i]) <= all)
    && (forall i, j :: 0 <= i < j < |h.live| ==> BlockPages(h.live[i]) !! BlockPages(h.live[j]))
    && (forall p :: p in all && p !in h.free ==> exists i :: 0 <= i < |h.live| && p in BlockPages(h.live[i]))
    && (forall i :: 0 <= i < |h.live| ==> h.live[i].start <= pages)
  }

  lemma AllocateKeeps(h: Heap, pages: nat, all: set<nat>, n: nat)
    requires Consistent(h, pages, all) && h.index <= pages && Possible(h, pages, Allocate(n))
    ensures Consistent(Step(h, pages, Allocate(n)), pages, all)
  {
    hide *;
    ghost var b, index := Found(h, pages, n);
    AddBlock(h, b, index, pages, all);
  }

  /** The block that an allocation hands out. */
  lemma Found(h: Heap, pages: nat, n: nat) returns (b: Block, index: nat)
    requires h.index <= pages && Possible(h, pages, Allocate(n))
    ensures BlockPages(b) <= h.free && b.start <= pages && index <= pages
    ensures Step(h, pages, Allocate(n)) == Heap(h.free - BlockPages(b), index, h.live + [b])
  {
    var r := Scan(h.free, pages, n, h.index, 0);
    ScanFinds(h.free, pages, n, h.index, h.index, 0);
    b, index := Block(r.0 - r.1, n), r.0;
    hide Scan;
    forall p | p in BlockPages(b)
      ensures p in h.free
    {
      assert IsRun(h.free, pages, n, b.start);
    }
  }

  lemma AddBlock(h: Heap, b: Block, index: nat, pages: nat, all: set<nat>)
    requires Consistent(h, pages, all) && BlockPages(b) <= h.free && b.start <= pages && index <= pages
    ensures Consistent(Heap(h.free - BlockPages(b), index, h.live + [b]), pages, all)
  {
    hide Range, BlockPages;
    var h' := Heap(h.free - BlockPages(b), index, h.live + [b]);
    assert h'.live[|h.live|] == b && forall i :: 0 <= i < |h.live| ==> h'.live[i] == h.live[i];
    forall p | p in all && p !in h'.free
      ensures exists i :: 0 <= i < |h'.live| && p in BlockPages(h'.live[i])
    {
      if p in h.free {
        assert p in BlockPages(h'.live[|h.live|]);
      } else {
        var j :| 0 <= j < |h.live| && p in BlockPages(h.live[j]);
        assert h'.live[j] == h.live[j];
      }
    }
  }

  lemma ReleaseKeeps(h: Heap, pages: nat, all: set<nat>, k: nat)
    requires Consistent(h, pages, all) && k < |h.live|
    ensures Consistent(Step(h, pages, Release(k)), pages, all)
  {
    hide Range, BlockPages, Scan, IsRun;
    var h' := Step(h, pages, Release(k));
    assert forall i :: 0 <= i < |h'.live| ==> h'.live[i] == h.live[if i < k then i else i + 1];
    forall p | p in all && p !in h'.free
      ensures exists i :: 0 <= i < |h'.live| && p in BlockPages(h'.live[i])
    {
      var j :| 0 <= j < |h.live| && p in BlockPages(h.live[j]);
      assert h'.live[if j < k then j else j - 1] == h.live[j];
    }
  }

  /** All calls of a run succeed. */
  ghost predicate AllPossible(h: Heap, pages: nat, ops: seq<Operation>)
    decreases |ops|
  {
    ops == [] || (Possible(h, pages, ops[0]) && AllPossible(Step(h, pages, ops[0]), pages, ops[1..]))
  }

  ghost function After(h: Heap, pages: nat, ops: seq<Operation>): Heap
    requires AllPossible(h, pages, ops)
    decreases |ops|
  {
    if ops == [] then h else After(Step(h, pages, ops[0]), pages, ops[1..])
  }

  /** Safety over whole runs: live blocks never overlap each other or the free pages, and no page is lost. */
  lemma {:induction false} RunSafe(h: Heap, pages: nat, all: set<nat>, ops: seq<Operation>)
    requires Consistent(h, pages, all) && AllPossible(h, pages, ops)
    ensures Consistent(After(h, pages, ops), pages, all)
    decreases |ops|
  {
    if ops != [] {
      match ops[0] {
        case Allocate(n) => AllocateKeeps(h, pages, all, n);
        case Release(k) => ReleaseKeeps(h, pages, all, k);
      }
      RunSafe(Step(h, pages, ops[0]), pages, all, ops[1..]);
    }
  }

  // ---- The memory map

  datatype Entry = Entry(base: nat, length: nat, usable: bool)

  function End(e: Entry): nat {
    e.base + e.length
  }

  /** The page is in a usable entry. */
  ghost predicate IsUsable(entries: seq<Entry>, p: nat) {
    exists i :: 0 <= i < |entries| && InEntry(entries[i], p)
  }

  predicate InEntry(e: Entry, p: nat) {
    e.usable && e.base <= p * PAGE_SIZE < End(e)
  }

  lemma UsableIs(entries: seq<Entry>, p: nat)
    ensures IsUsable(entries, p)
      <==> (exists i :: 0 <= i < |entries| && entries[i].usable && entries[i].base <= p * 0x1000 < entries[i].base + entries[i].length)
  {
    if IsUsable(entries, p) {
      var i :| 0 <= i < |entries| && InEntry(entries[i], p);
      assert entries[i].usable;
    }
    if i :| 0 <= i < |entries| && entries[i].usable && entries[i].base <= p * 0x1000 < entries[i].base + entries[i].length {
      assert InEntry(entries[i], p);
    }
  }

  /** What the boot protocol promises of usable entries: whole pages, and no overlap. */
  ghost predicate WellFormed(entries: seq<Entry>) {
    && (forall i :: 0 <= i < |entries| && entries[i].usable ==>
          entries[i].base % PAGE_SIZE == 0 && entries[i].length % PAGE_SIZE == 0)
    && (forall i, j, p {:trigger InEntry(entries[i], p), InEntry(entries[j], p)} ::
          0 <= i < j < |entries| ==> !(InEntry(entries[i], p) && InEntry(entries[j], p)))
  }

  /** The size in bytes of the bitmap. */
  function BitmapSize(pages: nat): nat {
    (pages / 8 + (PAGE_SIZE - 1)) / PAGE_SIZE * PAGE_SIZE
  }

  /** The bitmap has a bit for every page, except when the page count divided by eight leaves a remainder
      that the rounding up to a whole page does not make up for. */
  lemma BitmapCovers(pages: nat)
    ensures pages <= 8 * BitmapSize(pages) <==> pages % 8 == 0 || pages / 8 % PAGE_SIZE != 0
  {
    var q, r := pages / 8 / PAGE_SIZE, pages / 8 % PAGE_SIZE;
    assert pages / 8 + (PAGE_SIZE - 1) == q * PAGE_SIZE + (r + PAGE_SIZE - 1);
    if r == 0 {
      assert (pages / 8 + (PAGE_SIZE - 1)) / PAGE_SIZE == q;
    } else {
      assert pages / 8 + (PAGE_SIZE - 1) == (q + 1) * PAGE_SIZE + (r - 1);
      assert (pages / 8 + (PAGE_SIZE - 1)) / PAGE_SIZE == q + 1;
    }
  }

  /** The end of the highest usable entry. */
  function Highest(entries: seq<Entry>): (h: nat)
    ensures forall i :: 0 <= i < |entries| && entries[i].usable ==> End(entries[i]) <= h
  {
    if entries == [] then 0
    else
      var h := Highest(entries[..|entries| - 1]);
      var e := entries[|entries| - 1];
      if e.usable && End(e) > h then End(e) else h
  }

  /** It is attained, unless no entry is usable. */
  lemma {:induction false} HighestAttained(entries: seq<Entry>)
    ensures Highest(entries) == 0 || exists i :: 0 <= i < |entries| && entries[i].usable && entries[i].base + entries[i].length == Highest(entries)
    decreases |entries|
  {
    if entries != [] {
      var init := entries[..|entries| - 1];
      HighestAttained(init);
      if Highest(init) != 0 {
        var i :| 0 <= i < |init| && init[i].usable && init[i].base + init[i].length == Highest(init);
        assert entries[i] == init[i];
      }
      var e := entries[|entries| - 1];
      if e.usable && End(e) > Highest(init) {
        assert entries[|entries| - 1].base + entries[|entries| - 1].length == Highest(entries);
      }
    }
  }

  /** The usable memory ends with page `pages`. */
  ghost predicate EndsAt(entries: seq<Entry>, pages: nat) {
    && (forall i :: 0 <= i < |entries| && entries[i].usable ==> entries[i].base + entries[i].length <= pages * 0x1000)
    && (pages > 0 ==> exists i :: 0 <= i < |entries| && entries[i].usable && entries[i].base + entries[i].length == pages * 0x1000)
  }

  /** Then no usable page is left out, and the last one is usable unless only an empty entry ends there. */
  lemma LastPage(entries: seq<Entry>)
    requires WellFormed(entries)
    ensures EndsAt(entries, Highest(entries) / PAGE_SIZE)
  {
    HighestAttained(entries);
    var h := Highest(entries);
    hide Highest;
    if h > 0 {
      var i :| 0 <= i < |entries| && entries[i].usable && entries[i].base + entries[i].length == h;
      WholePages(entries[i].base, entries[i].length);
    }
  }

  lemma LastUsable(entries: seq<Entry>, pages: nat)
    requires EndsAt(entries, pages) && WellFormed(entries)
    ensures forall p: nat :: p >= pages ==> !IsUsable(entries, p)
    ensures pages > 0 && (forall i :: 0 <= i < |entries| && entries[i].usable ==> entries[i].length > 0) ==> IsUsable(entries, pages - 1)
  {
    if pages > 0 && forall i :: 0 <= i < |entries| && entries[i].usable ==> entries[i].length > 0 {
      var i :| 0 <= i < |entries| && entries[i].usable && entries[i].base + entries[i].length == pages * 0x1000;
      WholePages(entries[i].base, entries[i].length);
      assert InEntry(entries[i], pages - 1);
    }
  }

  lemma WholePages(base: nat, length: nat)
    requires base % PAGE_SIZE == 0 && length % PAGE_SIZE == 0
    ensures (base + length) / PAGE_SIZE * PAGE_SIZE == base + length
    ensures length > 0 ==> base + length >= PAGE_SIZE && base <= ((base + length) / PAGE_SIZE - 1) * PAGE_SIZE
  {
  }

  lemma PageSize()
    ensures PAGE_SIZE == 0x1000
  {
  }

  /** The bitmap takes the fewest whole pages that have a byte for every eight pages. */
  lemma BitmapSizeLeast(pages: nat)
    ensures BitmapSize(pages) % 0x1000 == BitmapSize(pages) % PAGE_SIZE == 0 && pages / 8 <= BitmapSize(pages) < pages / 8 + 0x1000
  {
  }

  method HighestAddress(entries: array<Entry>) returns (higherAddress: nat)
    ensures higherAddress == Highest(entries[..])
  {
    higherAddress := 0;
    var i := 0;
    while i < entries.Length
      invariant 0 <= i <= entries.Length && higherAddress == Highest(entries[..i])
    {
      assert entries[..i + 1][..i] == entries[..i];
      if entries[i].usable {
        var topAddress := entries[i].base + entries[i].length;
        if topAddress > higherAddress {
          higherAddress := topAddress;
        }
      }
      i := i + 1;
    }
    assert entries[..i] == entries[..];
  }

  /** The entry can hold the bitmap. */
  predicate Holds(e: Entry, size: nat) {
    e.usable && e.length >= size
  }

  /** The first usable entry that can hold the bitmap. */
  ghost predicate FirstHolder(entries: seq<Entry>, k: nat, size: nat)
    requires k < |entries|
  {
    && entries[k].usable && entries[k].length >= size
    && forall i :: 0 <= i < k ==> !(entries[i].usable && entries[i].length >= size)
  }

  lemma HolderHolds(entries: seq<Entry>, k: nat, size: nat)
    requires k < |entries| && FirstHolder(entries, k, size)
    ensures Holds(entries[k], size)
  {
  }

  /** Takes the storage of the bitmap from the start of the first usable entry that can hold it. */
  method PlaceBitmap(entries: array<Entry>, size: nat) returns (k: nat, base: nat)
    requires exists i :: 0 <= i < entries.Length && Holds(entries[i], size)
    modifies entries
    ensures k < entries.Length && FirstHolder(old(entries[..]), k, size) && base == old(entries[k].base)
    ensures entries[..] == old(entries[..])[k := Entry(base + size, old(entries[k].length) - size, true)]
  {
    k := 0;
    while !Holds(entries[k], size)
      invariant k < entries.Length && forall i :: 0 <= i < k ==> !Holds(entries[i], size)
      decreases entries.Length - k
    {
      k := k + 1;
    }
    base := entries[k].base;
    entries[k] := Entry(entries[k].base + size, entries[k].length - size, true);
  }

  /** Taking whole pages from the start of an entry removes exactly these pages. */
  lemma StorageTaken(entries: seq<Entry>, k: nat, size: nat, p: nat)
    requires WellFormed(entries) && k < |entries| && Holds(entries[k], size) && size % PAGE_SIZE == 0
    ensures var e := entries[k];
      var taken := entries[k := Entry(e.base + size, e.length - size, true)];
      IsUsable(taken, p) <==> IsUsable(entries, p) && !(e.base <= p * PAGE_SIZE < e.base + size)
  {
    var e := entries[k];
    var taken := entries[k := Entry(e.base + size, e.length - size, true)];
    if IsUsable(taken, p) {
      var i :| 0 <= i < |taken| && InEntry(taken[i], p);
      assert InEntry(entries[i], p);
      if e.base <= p * PAGE_SIZE < e.base + size {
        assert InEntry(entries[k], p);
      }
    }
    if IsUsable(entries, p) && !(e.base <= p * PAGE_SIZE < e.base + size) {
      var i :| 0 <= i < |entries| && InEntry(entries[i], p);
      assert InEntry(taken[i], p);
    }
  }

  /** The usable entries are whole pages of the memory. */
  ghost predicate Inside(entries: seq<Entry>, pages: nat) {
    forall i :: 0 <= i < |entries| && entries[i].usable ==>
      End(entries[i]) <= pages * PAGE_SIZE && entries[i].base % PAGE_SIZE == 0 && entries[i].length % PAGE_SIZE == 0
  }

  lemma TakenInside(entries: seq<Entry>, k: nat, size: nat)
    requires WellFormed(entries) && k < |entries| && Holds(entries[k], size) && size % PAGE_SIZE == 0
    ensures var e := entries[k]; Inside(entries[k := Entry(e.base + size, e.length - size, true)], Highest(entries) / PAGE_SIZE)
  {
    hide Highest;
    forall i | 0 <= i < |entries| && entries[i].usable
      ensures End(entries[i]) <= Highest(entries) / PAGE_SIZE * PAGE_SIZE
    {
      Aligned(entries[i].base, entries[i].length, 0, Highest(entries));
    }
    Aligned(entries[k].base, entries[k].length, size, Highest(entries));
  }

  lemma EntryPages(e: Entry)
    requires e.usable && e.base % PAGE_SIZE == 0 && e.length % PAGE_SIZE == 0
    ensures forall p: nat :: InEntry(e, p) <==> e.base / PAGE_SIZE <= p < e.base / PAGE_SIZE + e.length / PAGE_SIZE
  {
  }

  lemma EntryPage(e: Entry, pages: nat, i: nat)
    requires e.base % PAGE_SIZE == 0 && i * PAGE_SIZE < e.length && End(e) <= pages * PAGE_SIZE
    ensures (e.base + i * PAGE_SIZE) / PAGE_SIZE == e.base / PAGE_SIZE + i < pages
  {
  }

  lemma AllSet(bytes: seq<bv8>)
    requires forall i :: 0 <= i < |bytes| ==> bytes[i] == 0xff
    ensures forall p: nat :: p < 8 * |bytes| ==> Bit(bytes, p)
  {
  }

  lemma UsableNext(entries: seq<Entry>, i: nat)
    requires i < |entries|
    ensures forall p: nat :: IsUsable(entries[..i + 1], p) <==> IsUsable(entries[..i], p) || InEntry(entries[i], p)
  {
    forall p: nat
      ensures IsUsable(entries[..i + 1], p) <==> IsUsable(entries[..i], p) || InEntry(entries[i], p)
    {
      if IsUsable(entries[..i], p) {
        var j :| 0 <= j < i && InEntry(entries[..i][j], p);
        assert InEntry(entries[..i + 1][j], p);
      }
      if IsUsable(entries[..i + 1], p) {
        var j :| 0 <= j < i + 1 && InEntry(entries[..i + 1][j], p);
        if j < i {
          assert InEntry(entries[..i][j], p);
        }
      }
      if InEntry(entries[i], p) {
        assert InEntry(entries[..i + 1][i], p);
      }
    }
  }

  class Pmm {
    const pages: nat
    const bitmap: array<bv8>
    /** The physical address of the bitmap. */
    const bitmapBase: nat
    var index: nat

    ghost predicate Valid()
      reads this
    {
      pages <= 8 * bitmap.Length && index <= pages
    }

    function Free(): (free: set<nat>)
      reads bitmap
      ensures forall p :: p in free <==> 0 <= p < pages && !Bit(bitmap[..], p)
    {
      set p | 0 <= p < pages && !Bit(bitmap[..], p)
    }

    /** The free pages that the scan can still reach. */
    ghost function Ahead(): (ahead: set<nat>)
      reads this, bitmap
      ensures forall p :: p in ahead <==> p in Free() && p >= index
    {
      set p | p in Free() && p >= index
    }

    /** The page holds part of the bitmap. */
    predicate InBitmap(p: nat) {
      bitmapBase <= p * PAGE_SIZE < bitmapBase + bitmap.Length
    }

    /** `pmm_init`: the free pages are exactly the usable ones outside the storage of the bitmap. */
    constructor (entries: array<Entry>)
      requires WellFormed(entries[..])
      requires var pages := Highest(entries[..]) / PAGE_SIZE;
        && (exists i :: 0 <= i < entries.Length && Holds(entries[i], BitmapSize(pages)))
        && (pages % 8 == 0 || pages / 8 % PAGE_SIZE != 0)
      modifies entries
      ensures Valid() && fresh(bitmap) && index == 0 && pages == Highest(old(entries[..])) / PAGE_SIZE
      ensures bitmap.Length % 0x1000 == 0 && pages / 8 <= bitmap.Length < pages / 8 + 0x1000 && bitmap.Length == BitmapSize(pages)
      ensures EndsAt(old(entries[..]), pages) && forall p: nat :: p >= pages ==> !IsUsable(old(entries[..]), p)
      ensures pages > 0 && (forall i :: 0 <= i < entries.Length && old(entries[i]).usable ==> old(entries[i]).length > 0) ==>
        IsUsable(old(entries[..]), pages - 1)
      ensures exists k :: 0 <= k < entries.Length && FirstHolder(old(entries[..]), k, bitmap.Length) && bitmapBase == old(entries[k]).base
      ensures forall p: nat :: p in Free() <==> IsUsable(old(entries[..]), p) && !InBitmap(p)
    {
      hide *;
      PageSize();
      var higherAddress := HighestAddress(entries);
      pages := higherAddress / PAGE_SIZE;
      var size := BitmapSize(higherAddress / PAGE_SIZE);
      var k, base := PlaceBitmap(entries, size);
      bitmapBase := base;
      bitmap := new bv8[size](_ => 0xff);
      index := 0;
      new;
      BitmapCovers(pages);
      BitmapSizeLeast(pages);
      Parts();
      ghost var was := old(entries[..]);
      LastPage(was);
      LastUsable(was, pages);
      HolderHolds(was, k, size);
      TakenInside(was, k, size);
      AllSet(bitmap[..]);
      ClearUsable(entries[..]);
      forall p: nat
        ensures p in Free() <==> IsUsable(was, p) && !InBitmap(p)
      {
        StorageTaken(was, k, size, p);
      }
    }

    lemma Parts()
      ensures Valid() <==> pages <= 8 * bitmap.Length && index <= pages
      ensures forall p: nat :: InBitmap(p) <==> bitmapBase <= p * PAGE_SIZE < bitmapBase + bitmap.Length
    {
    }

    /** Clears the bits of the usable pages. */
    method ClearUsable(entries: seq<Entry>)
      requires Valid() && Inside(entries, pages)
      requires forall p :: 0 <= p < pages ==> Bit(bitmap[..], p)
      modifies bitmap
      ensures forall p: nat :: p in Free() <==> IsUsable(entries, p)
    {
      var i := 0;
      while i < |entries|
        invariant 0 <= i <= |entries|
        invariant forall p: nat :: p < pages ==> (!Bit(bitmap[..], p) <==> IsUsable(entries[..i], p))
      {
        UsableNext(entries, i);
        if entries[i].usable {
          ClearEntry(entries[i]);
        }
        i := i + 1;
      }
      assert entries[..i] == entries;
      forall p: nat | IsUsable(entries, p)
        ensures p < pages
      {
        var j :| 0 <= j < |entries| && InEntry(entries[j], p);
      }
    }

    method ClearEntry(e: Entry)
      requires Valid() && e.usable && End(e) <= pages * PAGE_SIZE && e.base % PAGE_SIZE == 0 && e.length % PAGE_SIZE == 0
      modifies bitmap
      ensures forall p: nat :: Bit(bitmap[..], p) <==> old(Bit(bitmap[..], p)) && !InEntry(e, p)
    {
      hide BitOf;
      ghost var first, i := e.base / PAGE_SIZE, 0;
      EntryPages(e);
      var j := 0;
      while j < e.length
        invariant 0 <= i <= e.length / PAGE_SIZE && j == i * PAGE_SIZE
        invariant forall p: nat :: Bit(bitmap[..], p) <==> old(Bit(bitmap[..], p)) && !(first <= p < first + i)
      {
        EntryPage(e, pages, i);
        Clear(bitmap, (e.base + j) / PAGE_SIZE);
        j := j + PAGE_SIZE;
        i := i + 1;
      }
    }

    /** `pmm_alloc`: the lowest run of free pages at or after the scan index. */
    method Alloc(n: nat) returns (address: nat)
      requires Valid() && HasRun(Free(), pages, n, index)
      modifies this`index, bitmap
      ensures Valid() && address % PAGE_SIZE == 0
      ensures var s := address / PAGE_SIZE;
        && old(index) <= s && IsRun(old(Free()), pages, n, s)
        && (forall s' :: old(index) <= s' < s ==> !IsRun(old(Free()), pages, n, s'))
        && index == s + n && Free() == old(Free()) - Range(s, n)
      ensures (index, n) == Scan(old(Free()), pages, n, old(index), 0)
      ensures var s := address / 0x1000;
        && (forall p :: s <= p < s + n ==> p in old(Free()))
        && (forall p :: p in Free() <==> p in old(Free()) && !(s <= p < s + n))
    {
      hide *;
      Bounds();
      ghost var s := LowestRun(Free(), pages, n, index);
      var pagesFree := FindRun(n);
      SetRange(index - pagesFree, n);
      address := (index - pagesFree) * PAGE_SIZE;
      AddressOf(s);
      RunIs(old(Free()), pages, n, s);
    }

    lemma Bounds()
      requires Valid()
      ensures index <= pages
    {
    }

    /** The scan: moves the index past the free pages it counts. */
    method FindRun(n: nat) returns (pagesFree: nat)
      requires Valid()
      modifies this`index
      ensures Valid() && (index, pagesFree) == Scan(Free(), pages, n, old(index), 0)
    {
      pagesFree := 0;
      while index < pages
        invariant pagesFree <= n && pagesFree <= index <= pages
        invariant Scan(Free(), pages, n, index, pagesFree) == Scan(Free(), pages, n, old(index), 0)
        decreases pages - index
      {
        if pagesFree == n {
          break;
        }
        var bit := Get(bitmap, index);
        if bit == 0 {
          pagesFree := pagesFree + 1;
        } else {
          pagesFree := 0;
        }
        index := index + 1;
      }
    }

    method SetRange(s: nat, n: nat)
      requires Valid() && s + n <= pages
      modifies bitmap
      ensures Free() == old(Free()) - Range(s, n)
    {
      var i := 0;
      while i < n
        invariant 0 <= i <= n
        invariant forall p: nat :: Bit(bitmap[..], p) <==> old(Bit(bitmap[..], p)) || s <= p < s + i
      {
        Set(bitmap, s + i);
        i := i + 1;
      }
    }

    /** `pmm_free`: the block becomes free, and the next scan starts there. */
    method Release(address: nat, n: nat)
      requires Valid() && address / PAGE_SIZE + n <= pages
      modifies this`index, bitmap
      ensures Valid() && index == address / PAGE_SIZE
      ensures Free() == old(Free()) + Range(address / PAGE_SIZE, n)
      ensures index == address / 0x1000 && forall p: nat :: p in Free() <==> p in old(Free()) || address / 0x1000 <= p < address / 0x1000 + n
    {
      var pageIndex := address / PAGE_SIZE;
      var i := 0;
      while i < n
        invariant 0 <= i <= n
        invariant forall p: nat :: Bit(bitmap[..], p) <==> old(Bit(bitmap[..], p)) && !(pageIndex <= p < pageIndex + i)
      {
        Clear(bitmap, pageIndex + i);
        i := i + 1;
      }
      index := pageIndex;
    }
  }
}
