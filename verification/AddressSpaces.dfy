/**
 Address spaces over the page tables and the page allocator (`src/mm/vmm.c`).

 Physical memory is an array of words, and a table is named by its page number. A load of the CR3 register
 is a write of `currentPageMap`; the invalidation of a translation buffer has no counterpart.
 */
module AddressSpaces {
  import opened Words
  import Arithmetic
  import opened PageTables
  import opened Bits
  import Worlds
  import opened PageAllocator

  /** No translation of a root differs, except those of page `g` under `root` and, in the upper half, under
      any root that shares the table. */
  ghost predicate SameBut(mem: seq<nat>, mem': seq<nat>, roots: set<nat>, root: nat, g: Page) {
    forall r: nat, g': Page :: r in roots && g'.Valid() && (g' != g || (r != root && g.Lower())) ==>
      Translate(mem', r, g') == Translate(mem, r, g')
  }

  ghost predicate Same(mem: seq<nat>, mem': seq<nat>, roots: set<nat>) {
    forall r: nat, g: Page :: r in roots && g.Valid() ==> Translate(mem', r, g) == Translate(mem, r, g)
  }

  /** The paths of a set that lead to no table. */
  function Missing(mem: seq<nat>, r: nat, xs: set<Prefix>): (m: set<Prefix>)
    ensures forall x :: x in m <==> x in xs && Table(mem, r, x) == None
  {
    set x | x in xs && Table(mem, r, x) == None
  }

  /** `n` pages have been taken, all of them ahead of the scan. */
  ghost predicate Used(free: set<nat>, ahead: set<nat>, free': set<nat>, ahead': set<nat>, n: nat) {
    free' <= free && free - free' <= ahead && |free - free'| == n && ahead' == ahead - (free - free')
  }

  /** The page budget of a mapping: the missing tables among `xs` and the pages taken so far add up to `n`. */
  ghost predicate Spending(mem: seq<nat>, root: nat, xs: set<Prefix>, free0: set<nat>, ahead0: set<nat>, n: nat, free: set<nat>, ahead: set<nat>) {
    && (forall x :: x in xs ==> InBounds(x))
    && ahead <= free && n <= |ahead0| && n == |Missing(mem, root, xs)| + |free0 - free|
    && Used(free0, ahead0, free, ahead, |free0 - free|)
  }

  lemma StartSpending(mem: seq<nat>, root: nat, xs: set<Prefix>, free: set<nat>, ahead: set<nat>)
    requires (forall x :: x in xs ==> InBounds(x)) && ahead <= free && |Missing(mem, root, xs)| <= |ahead|
    ensures Spending(mem, root, xs, free, ahead, |Missing(mem, root, xs)|, free, ahead)
  {
    hide Missing;
    assert free - free == {} && ahead - {} == ahead;
  }

  /** What is still missing can be paid for. */
  lemma Affords(mem: seq<nat>, root: nat, xs: set<Prefix>, free0: set<nat>, ahead0: set<nat>, n: nat, free: set<nat>, ahead: set<nat>)
    requires Spending(mem, root, xs, free0, ahead0, n, free, ahead)
    ensures |Missing(mem, root, xs)| <= |ahead|
    ensures forall x :: x in xs ==> InBounds(x) && (Table(mem, root, x) == None ==> ahead != {})
  {
    assert |ahead| == |ahead0| - |free0 - free| by {
      Disjoint(ahead0, free0 - free);
    }
    hide Table;
  }

  lemma AllSpent(mem: seq<nat>, root: nat, xs: set<Prefix>, free0: set<nat>, ahead0: set<nat>, n: nat, free: set<nat>, ahead: set<nat>)
    requires Spending(mem, root, xs, free0, ahead0, n, free, ahead)
    requires forall x :: x in xs ==> Table(mem, root, x).Some?
    ensures Used(free0, ahead0, free, ahead, n)
  {
    hide Table;
    assert Missing(mem, root, xs) == {};
  }

  lemma OnePage(p: nat)
    ensures p * PAGE_SIZE / PAGE_SIZE == p && Range(p, 1) == {p}
  {
    AddressOf(p);
  }

  lemma Disjoint<T>(a: set<T>, b: set<T>)
    requires b <= a
    ensures |a - b| == |a| - |b|
  {
    assert a == (a - b) + b;
  }

  /** Making the tables `made` among `xs` with the pages `free - free'`. */
  lemma Spend(mem: seq<nat>, mem': seq<nat>, root: nat, xs: set<Prefix>, made: set<Prefix>, free0: set<nat>, ahead0: set<nat>, n: nat,
              free: set<nat>, ahead: set<nat>, free': set<nat>, ahead': set<nat>)
    requires Spending(mem, root, xs, free0, ahead0, n, free, ahead) && made <= xs
    requires forall y :: y in xs ==> (Table(mem', root, y) == None <==> y !in made && Table(mem, root, y) == None)
    requires Used(free, ahead, free', ahead', |Missing(mem, root, made)|)
    ensures Spending(mem', root, xs, free0, ahead0, n, free', ahead')
  {
    hide Table;
    var m, m', d := Missing(mem, root, xs), Missing(mem', root, xs), Missing(mem, root, made);
    assert m' == m - d && d <= m;
    Disjoint(m, d);
    hide Missing;
    UsedThenUsed(free0, ahead0, free, ahead, free', ahead', |free0 - free|, |d|);
  }

  lemma UsedThenUsed(free0: set<nat>, ahead0: set<nat>, free: set<nat>, ahead: set<nat>, free': set<nat>, ahead': set<nat>, k: nat, l: nat)
    requires Used(free0, ahead0, free, ahead, k) && Used(free, ahead, free', ahead', l)
    ensures Used(free0, ahead0, free', ahead', k + l)
    ensures ahead <= free ==> ahead' <= free'
  {
    assert free0 - free' == (free0 - free) + (free - free');
    assert (free0 - free) !! (free - free');
  }

  lemma OneTable(mem: seq<nat>, root: nat, x: Prefix, free: set<nat>, ahead: set<nat>, free': set<nat>, ahead': set<nat>, t: nat)
    requires ahead <= free
    requires Table(mem, root, x).Some? ==> free' == free && ahead' == ahead
    requires Table(mem, root, x) == None ==> t in ahead && free' == free - {t} && ahead' == ahead - {t}
    ensures Used(free, ahead, free', ahead', |Missing(mem, root, {x})|)
  {
    hide Table;
    if Table(mem, root, x) == None {
      assert Missing(mem, root, {x}) == {x} && free - free' == {t};
    } else {
      assert Missing(mem, root, {x}) == {} && free - free' == {};
    }
  }

  /** The steps of a walk. */
  lemma Steps(mem: seq<nat>, root: nat, g: Page)
    requires g.Valid()
    ensures InBounds(P3(g.e4)) && InBounds(P2(g.e4, g.e3)) && InBounds(P1(g.e4, g.e3, g.e2))
    ensures Prefixes(g) == {P3(g.e4), P2(g.e4, g.e3), P1(g.e4, g.e3, g.e2)}
    ensures Last(P3(g.e4)) == g.e4 && Last(P2(g.e4, g.e3)) == g.e3 && Last(P1(g.e4, g.e3, g.e2)) == g.e2
    ensures Parent(mem, root, P3(g.e4)) == Some(root)
    ensures Parent(mem, root, P2(g.e4, g.e3)) == Table(mem, root, P3(g.e4)) == Next(mem, Some(root), g.e4)
    ensures Parent(mem, root, P1(g.e4, g.e3, g.e2)) == Table(mem, root, P2(g.e4, g.e3)) == Next(mem, Table(mem, root, P3(g.e4)), g.e3)
    ensures Table(mem, root, P1(g.e4, g.e3, g.e2)) == Next(mem, Table(mem, root, P2(g.e4, g.e3)), g.e2)
    ensures Next(mem, None, g.e3) == None && Next(mem, None, g.e2) == None
    ensures Table(mem, root, P1(g.e4, g.e3, g.e2)) == None ==> Translate(mem, root, g) == None
  {
  }

  // ---- Ranges of pages

  /** The tables on the way to `n` consecutive pages. */
  function RangePrefixes(vaddr: nat, n: nat): set<Prefix> {
    if n == 0 then {} else RangePrefixes(vaddr, n - 1) + Prefixes(PageOf(vaddr + (n - 1) * 0x1000))
  }

  ghost predicate InRange(g: Page, vaddr: nat, n: nat) {
    exists i :: 0 <= i < n && g == PageOf(vaddr + i * 0x1000)
  }

  /** The address of page `i` from `a` on, on 64 bits. */
  function PageAddress(a: nat, i: nat): (r: u64) {
    (a + i * 0x1000) % SIZE_MODULUS
  }

  /** `n` pages translate to consecutive physical pages, and nothing else has changed. A range of more than 2^36
      pages comes round to its first pages, and the last write counts. */
  ghost predicate RangeMapped(mem: seq<nat>, mem': seq<nat>, roots: set<nat>, root: nat, paddr: nat, vaddr: nat, n: nat, flags: nat) {
    && (forall i :: 0 <= i < n <= i + 0x10_0000_0000 ==>
      Translate(mem', root, PageOf(vaddr + i * 0x1000)) == Mapped(Or(PageAddress(paddr, i), flags)))
    && RangeKept(mem, mem', roots, root, vaddr, n)
  }

  ghost predicate RangeKept(mem: seq<nat>, mem': seq<nat>, roots: set<nat>, root: nat, vaddr: nat, n: nat) {
    forall r: nat, g: Page :: r in roots && g.Valid() && (!InRange(g, vaddr, n) || (r != root && g.Lower())) ==>
      Translate(mem', r, g) == Translate(mem, r, g)
  }

  lemma RangeBounds(vaddr: nat, n: nat)
    ensures forall x :: x in RangePrefixes(vaddr, n) ==> InBounds(x)
  {
  }

  /** An address that wraps around names the same page. */
  lemma SamePage(a: nat, i: nat)
    ensures PageOf(PageAddress(a, i)) == PageOf(a + i * 0x1000)
  {
    hide PageOf;
    var v := a + i * 0x1000;
    var q, r := v / SIZE_MODULUS, v % SIZE_MODULUS;
    assert v == r + q * 0x10_0000_0000_0000 * 0x1000;
    Shifted(r, q * 0x1_0000);
  }

  lemma Shifted(r: nat, q: nat)
    ensures PageOf(r + q * 0x10_0000_0000 * 0x1000) == PageOf(r)
  {
    var v := r + q * 0x10_0000_0000 * 0x1000;
    assert v / 0x1000 == r / 0x1000 + q * 0x10_0000_0000;
    var n := r / 0x1000;
    ShiftedDigit(n, q, 1, 0x800_0000);
    ShiftedDigit(n, q, 0x200, 0x4_0000);
    ShiftedDigit(n, q, 0x4_0000, 0x200);
    ShiftedDigit(n, q, 0x800_0000, 1);
  }

  lemma ShiftedDigit(n: nat, q: nat, b: nat, c: nat)
    requires b > 0 && c * 0x200 * b == 0x10_0000_0000
    ensures (n + q * 0x10_0000_0000) / b % 0x200 == n / b % 0x200
  {
    Arithmetic.Parts(n, b);
    ShiftedSum(n / b, n % b, q, b, c);
    Arithmetic.DivMod(n / b + q * c * 0x200, b, n % b);
    SameDigit(n / b, q * c);
  }

  lemma ShiftedSum(m: nat, x: nat, q: nat, b: nat, c: nat)
    requires c * 0x200 * b == 0x10_0000_0000
    ensures q * c >= 0 && m * b + x + q * 0x10_0000_0000 == (m + q * c * 0x200) * b + x
  {
    Arithmetic.Associate(q, c, 0x200);
    Arithmetic.Associate(q, c * 0x200, b);
    Arithmetic.Distribute(m, q * c * 0x200, b);
  }

  lemma SameDigit(m: nat, k: nat)
    ensures (m + k * 0x200) % 0x200 == m % 0x200
  {
  }

  lemma NothingMapped(mem: seq<nat>, roots: set<nat>, root: nat, paddr: nat, vaddr: nat, flags: nat)
    ensures RangeMapped(mem, mem, roots, root, paddr, vaddr, 0, flags)
    ensures RangePrefixes(vaddr, 0) == {}
  {
  }

  lemma {:induction false} RangeContains(vaddr: nat, i: nat, n: nat)
    requires i < n
    ensures Prefixes(PageOf(vaddr + i * 0x1000)) <= RangePrefixes(vaddr, n)
    decreases n
  {
    if i < n - 1 {
      RangeContains(vaddr, i, n - 1);
    }
  }

  lemma RangeNext(mem: seq<nat>, root: nat, vaddr: nat, i: nat, n: nat)
    requires i < n
    ensures Prefixes(PageOf(vaddr + i * 0x1000)) <= RangePrefixes(vaddr, n)
    ensures RangePrefixes(vaddr, i + 1) == RangePrefixes(vaddr, i) + Prefixes(PageOf(vaddr + i * 0x1000))
    ensures |Missing(mem, root, Prefixes(PageOf(vaddr + i * 0x1000)))| <= |Missing(mem, root, RangePrefixes(vaddr, n))|
  {
    RangeContains(vaddr, i, n);
    var a, b := Missing(mem, root, Prefixes(PageOf(vaddr + i * 0x1000))), Missing(mem, root, RangePrefixes(vaddr, n));
    hide Prefixes, PageOf, Table;
    Disjoint(b, a);
  }

  /** Different pages of a range of at most 2^36 have different table indices. */
  lemma PagesDiffer(vaddr: nat, i: nat, j: nat)
    requires i < j < i + 0x10_0000_0000
    ensures PageOf(vaddr + i * 0x1000) != PageOf(vaddr + j * 0x1000)
  {
    Numbered(vaddr, i);
    Numbered(vaddr, j);
    hide PageOf;
  }

  /** The table indices are the digits of the page number. */
  lemma Numbered(vaddr: nat, i: nat)
    ensures var g := PageOf(vaddr + i * 0x1000);
      ((g.e4 * 0x200 + g.e3) * 0x200 + g.e2) * 0x200 + g.e1 == (vaddr / 0x1000 + i) % 0x10_0000_0000
  {
    var n := vaddr / 0x1000 + i;
    assert (vaddr + i * 0x1000) / 0x1000 == n;
    Digits(n);
  }

  lemma Digits(n: nat)
    ensures ((n / 0x800_0000 % 0x200 * 0x200 + n / 0x4_0000 % 0x200) * 0x200 + n / 0x200 % 0x200) * 0x200 + n % 0x200 == n % 0x10_0000_0000
  {
    Arithmetic.ModProduct(n, 0x200, 0x800_0000);
    Arithmetic.ModProduct(n / 0x200, 0x200, 0x4_0000);
    Arithmetic.ModProduct(n / 0x4_0000, 0x200, 0x200);
  }

  lemma MappedNext(mem: seq<nat>, mem': seq<nat>, mem'': seq<nat>, roots: set<nat>, root: nat, paddr: nat, vaddr: nat, k: nat, flags: nat)
    requires RangeMapped(mem, mem', roots, root, paddr, vaddr, k, flags) && root in roots
    requires SameBut(mem', mem'', roots, root, PageOf(vaddr + k * 0x1000))
    requires Translate(mem'', root, PageOf(vaddr + k * 0x1000)) == Mapped(Or(PageAddress(paddr, k), flags))
    ensures RangeMapped(mem, mem'', roots, root, paddr, vaddr, k + 1, flags)
  {
    hide Translate, PageOf, Or, Mapped, RangeKept, PageAddress;
    forall i | 0 <= i < k < i + 0x10_0000_0000
      ensures Translate(mem'', root, PageOf(vaddr + i * 0x1000)) == Mapped(Or(PageAddress(paddr, i), flags))
    {
      PagesDiffer(vaddr, i, k);
    }
    KeptNext(mem, mem', mem'', roots, root, vaddr, k);
  }

  lemma KeptNext(mem: seq<nat>, mem': seq<nat>, mem'': seq<nat>, roots: set<nat>, root: nat, vaddr: nat, k: nat)
    requires RangeKept(mem, mem', roots, root, vaddr, k)
    requires SameBut(mem', mem'', roots, root, PageOf(vaddr + k * 0x1000))
    ensures RangeKept(mem, mem'', roots, root, vaddr, k + 1)
  {
    hide Translate, PageOf;
    forall r: nat, g: Page | r in roots && g.Valid() && (!InRange(g, vaddr, k + 1) || (r != root && g.Lower()))
      ensures Translate(mem'', r, g) == Translate(mem, r, g)
    {
      if !InRange(g, vaddr, k + 1) {
        assert g != PageOf(vaddr + k * 0x1000);
        assert !InRange(g, vaddr, k);
      }
    }
  }

  /** A word while the upper half of `k` is copied to the cleared page `q`, up to entry `i`. */
  function Copied(mem: seq<nat>, k: nat, q: nat, i: nat, index: nat): nat
    requires index < |mem|
  {
    if index / ENTRIES != q then mem[index]
    else if 256 <= index % ENTRIES < i then At(mem, k, index % ENTRIES) else 0
  }

  // ---- Allocation of mapped pages

  /** The lowest run of `n` free pages from `from` on. */
  ghost predicate IsLowest(free: set<nat>, total: nat, from: nat, n: nat, s: nat) {
    from <= s && IsRun(free, total, n, s) && forall s' :: from <= s' < s ==> !IsRun(free, total, n, s')
  }

  ghost function Beyond(free: set<nat>, from: nat): set<nat> {
    set p | p in free && p >= from
  }

  /** Behind the run there are enough pages for the tables that its mapping lacks. */
  ghost predicate Affordable(mem: seq<nat>, root: nat, free: set<nat>, total: nat, from: nat, n: nat) {
    forall s: nat :: IsLowest(free, total, from, n, s) ==>
      |Missing(mem, root, RangePrefixes(s * PAGE_SIZE, n))| <= |Beyond(free, s + n)|
  }

  lemma AllocFacts(mem: seq<nat>, root: nat, free: set<nat>, total: nat, from: nat, n: nat, s: nat, addr: nat)
    requires Affordable(mem, root, free, total, from, n) && total <= PAGE_NUMBERS
    requires from <= s && IsRun(free, total, n, s) && forall s' :: from <= s' < s ==> !IsRun(free, total, n, s')
    requires addr % PAGE_SIZE == 0 && addr / PAGE_SIZE == s
    ensures IsLowest(free, total, from, n, s) && addr / PAGE_SIZE * PAGE_SIZE == addr == s * PAGE_SIZE
    ensures |Missing(mem, root, RangePrefixes(addr, n))| <= |Beyond(free, s + n)|
    ensures addr + n * 0x1000 < 0x1_0000_0000_0000_0000
    ensures Range(s, n) <= free
  {
    hide Missing, RangePrefixes, Beyond;
    assert IsLowest(free, total, from, n, s);
    assert s + n <= total;
  }

  ghost predicate RangeUnmapped(mem: seq<nat>, mem': seq<nat>, roots: set<nat>, root: nat, vaddr: nat, n: nat) {
    && (forall i :: 0 <= i < n ==> Translate(mem', root, PageOf(vaddr + i * 0x1000)) == None)
    && RangeKept(mem, mem', roots, root, vaddr, n)
  }

  lemma NothingUnmapped(mem: seq<nat>, roots: set<nat>, root: nat, vaddr: nat)
    ensures RangeUnmapped(mem, mem, roots, root, vaddr, 0)
  {
  }

  lemma UnmappedNext(mem: seq<nat>, mem': seq<nat>, mem'': seq<nat>, roots: set<nat>, root: nat, vaddr: nat, k: nat)
    requires RangeUnmapped(mem, mem', roots, root, vaddr, k) && root in roots
    requires SameBut(mem', mem'', roots, root, PageOf(vaddr + k * 0x1000))
    requires Translate(mem'', root, PageOf(vaddr + k * 0x1000)) == None
    ensures RangeUnmapped(mem, mem'', roots, root, vaddr, k + 1)
  {
    hide Translate, PageOf, RangeKept;
    forall i | 0 <= i < k
      ensures Translate(mem'', root, PageOf(vaddr + i * 0x1000)) == None
    {
      if PageOf(vaddr + i * 0x1000) != PageOf(vaddr + k * 0x1000) {
        assert Translate(mem', root, PageOf(vaddr + i * 0x1000)) == None;
      }
    }
    KeptNext(mem, mem', mem'', roots, root, vaddr, k);
  }

  lemma MappedThenUnmapped(mem: seq<nat>, mem': seq<nat>, mem'': seq<nat>, roots: set<nat>, root: nat, vaddr: nat, n: nat, flags: nat)
    requires RangeMapped(mem, mem', roots, root, vaddr, vaddr, n, flags) && RangeUnmapped(mem', mem'', roots, root, vaddr, n)
    ensures RangeUnmapped(mem, mem'', roots, root, vaddr, n)
  {
    hide Translate, PageOf, InRange;
  }

  lemma FreeFacts(ptr: nat, n: nat, total: nat, frames: nat)
    requires ptr % PAGE_SIZE == 0 && ptr / PAGE_SIZE + n <= total <= frames <= PAGE_NUMBERS
    ensures ptr + n * 0x1000 <= SIZE_MODULUS
  {
  }

  lemma LowestFits(free: set<nat>, total: nat, from: nat, n: nat, s: nat)
    requires IsLowest(free, total, from, n, s)
    ensures s + n <= total && Range(s, n) <= free && Beyond(free, s + n) <= free - Range(s, n)
  {
    forall p | p in Range(s, n)
      ensures p in free
    {
      assert IsRun(free, total, n, s);
    }
  }

  lemma Returned(free: set<nat>, block: set<nat>, beyond: set<nat>, free': set<nat>, ahead': set<nat>, n: nat)
    requires block <= free && Used(free - block, beyond, free', ahead', n)
    ensures free' + block <= free && |free - (free' + block)| == n
  {
    assert free - (free' + block) == free - block - free';
  }

  // ---- Roots

  lemma RootMade(mem: seq<nat>, frames: nat, roots: set<nat>, places: map<nat, Place>, k: nat, q: nat)
    requires Tree(mem, frames, roots, places) && k in roots && Fresh(frames, roots, places, q)
    ensures k < frames && k != q && q !in roots
    ensures var mem' := WithRoot(mem, k, q);
      && Tree(mem', frames, roots + {q}, places) && Same(mem, mem', roots)
      && forall g: Page :: g.Valid() ==> Translate(mem', q, g) == if g.Lower() then None else Translate(mem, k, g)
  {
    RootKeepsTree(mem, frames, roots, places, k, q);
    var mem' := WithRoot(mem, k, q);
    forall r: nat, g: Page | r in roots + {q} && g.Valid()
      ensures Translate(mem', r, g) == if r != q then Translate(mem, r, g) else if g.Lower() then None else Translate(mem, k, g)
    {
      RootTranslations(mem, frames, roots, places, k, q, r, g);
    }
    hide Translate, WithRoot;
  }

  lemma RootDropped(mem: seq<nat>, frames: nat, roots: set<nat>, places: map<nat, Place>, q: nat)
    requires Tree(mem, frames, roots, places) && q in roots
    ensures Tree(ZeroPage(mem, q), frames, roots - {q}, places) && Same(mem, ZeroPage(mem, q), roots - {q})
    ensures q !in places && q < frames && q * ENTRIES + ENTRIES <= |mem|
  {
    DropKeepsTree(mem, frames, roots, places, q);
    forall r: nat, g: Page | r in roots - {q} && g.Valid()
      ensures Translate(ZeroPage(mem, q), r, g) == Translate(mem, r, g)
    {
      DropTranslations(mem, frames, roots, places, q, r, g);
    }
    hide Translate, ZeroPage;
  }

  /** Writing the last-level entry of a page. */
  lemma LeafWritten(mem: seq<nat>, frames: nat, roots: set<nat>, places: map<nat, Place>, root: nat, g: Page, t: nat, w: nat)
    requires Tree(mem, frames, roots, places) && root in roots && g.Valid()
    requires Table(mem, root, P1(g.e4, g.e3, g.e2)) == Some(t)
    ensures t * ENTRIES + g.e1 < |mem|
    ensures var mem' := PutEntry(mem, t, g.e1, w);
      && Tree(mem', frames, roots, places)
      && Translate(mem', root, g) == Mapped(w)
      && SameBut(mem, mem', roots, root, g)
      && forall y :: InBounds(y) ==> Table(mem', root, y) == Table(mem, root, y)
  {
    var mem' := PutEntry(mem, t, g.e1, w);
    Walks(mem, frames, roots, places, root, Path1(g));
    assert t in places && places[t] == PlaceOf(root, Path1(g)) && t < frames;
    LeafKeepsTree(mem, frames, roots, places, t, g.e1, w);
    LeafTranslations(mem, frames, roots, places, t, g.e1, w, root, g);
    forall r: nat, g': Page | r in roots && g'.Valid() && (g' != g || (r != root && g.Lower()))
      ensures Translate(mem', r, g') == Translate(mem, r, g')
    {
      LeafTranslations(mem, frames, roots, places, t, g.e1, w, r, g');
      Walks(mem, frames, roots, places, r, Path1(g'));
    }
    forall y | InBounds(y)
      ensures Table(mem', root, y) == Table(mem, root, y)
    {
      LeafTables(mem, frames, roots, places, t, g.e1, w, root, y);
    }
    hide Tree, Translate, Table, PutEntry;
  }

  lemma SameThenSameBut(mem: seq<nat>, mem': seq<nat>, mem'': seq<nat>, roots: set<nat>, root: nat, g: Page)
    requires Same(mem, mem', roots)
    ensures SameBut(mem', mem'', roots, root, g) ==> SameBut(mem, mem'', roots, root, g)
    ensures Same(mem', mem'', roots) ==> Same(mem, mem'', roots)
  {
    hide Translate;
  }

  /** A page for a table: the lowest one the allocator can reach. */
  method AllocPage(pmm: Pmm) returns (page: nat)
    requires pmm.Valid() && pmm.Ahead() != {}
    modifies pmm`index, pmm.bitmap
    ensures pmm.Valid() && page in old(pmm.Ahead()) && page < pmm.pages
    ensures pmm.Free() == old(pmm.Free()) - {page} && pmm.Ahead() == old(pmm.Ahead()) - {page}
  {
    ghost var p :| p in pmm.Ahead();
    assert IsRun(pmm.Free(), pmm.pages, 1, p);
    ghost var free, from := pmm.Free(), pmm.index;
    var address := pmm.Alloc(1);
    page := address / PAGE_SIZE;
    assert page in free;
    forall p | p in free && p >= from
      ensures page <= p
    {
      assert IsRun(free, pmm.pages, 1, p);
    }
    assert Range(page, 1) == {page};
  }

  /** The end of a walk before its last step is a table of directory entries. */
  lemma Located(mem: seq<nat>, frames: nat, roots: set<nat>, places: map<nat, Place>, root: nat, x: Prefix, p: nat)
    requires Tree(mem, frames, roots, places) && root in roots && InBounds(x) && Parent(mem, root, x) == Some(p)
    ensures p < frames && Directory(roots, places, p) && PlaceUnder(places, p, Last(x)) == PlaceOf(root, x) && Last(x) < ENTRIES
    ensures p * ENTRIES + Last(x) < |mem|
    ensures Table(mem, root, x) == Next(mem, Some(p), Last(x))
    ensures Stands(places, Table(mem, root, x), PlaceOf(root, x))
    ensures Same(mem, mem, roots)
  {
    Walks(mem, frames, roots, places, root, x);
  }

  /** Two paths from one root with the same last step are the same. */
  lemma OnePath(mem: seq<nat>, frames: nat, roots: set<nat>, places: map<nat, Place>, root: nat, x: Prefix, y: Prefix)
    requires Tree(mem, frames, roots, places) && root in roots && InBounds(x) && InBounds(y)
    requires Parent(mem, root, x).Some? && Parent(mem, root, x) == Parent(mem, root, y) && Last(x) == Last(y)
    ensures x == y
  {
    Walks(mem, frames, roots, places, root, x);
    Walks(mem, frames, roots, places, root, y);
    hide Next;
  }

  /** Linking a fresh table at the end of a path. */
  lemma Linked(mem: seq<nat>, frames: nat, roots: set<nat>, places: map<nat, Place>, root: nat, x: Prefix, p: nat, q: nat)
    requires Tree(mem, frames, roots, places) && root in roots && InBounds(x)
    requires Parent(mem, root, x) == Some(p) && Table(mem, root, x) == None && Fresh(frames, roots, places, q)
    ensures var mem' := PutEntry(ZeroPage(mem, q), p, Last(x), q * 0x1000 + (PRESENT + WRITE));
      && Tree(mem', frames, roots, places[q := PlaceOf(root, x)])
      && Same(mem, mem', roots)
      && forall y :: InBounds(y) ==> Table(mem', root, y) == if y == x then Some(q) else Table(mem, root, y)
  {
    var e, mem' := Last(x), WithTable(mem, p, Last(x), q);
    Located(mem, frames, roots, places, root, x, p);
    Absent(mem, p, e);
    LinkKeepsTree(mem, frames, roots, places, p, e, q);
    hide Tree, Translate, Parent, Table;
    forall r: nat, g: Page | r in roots && g.Valid()
      ensures Translate(mem', r, g) == Translate(mem, r, g)
    {
      LinkKeepsTranslations(mem, frames, roots, places, p, e, q, r, g);
    }
    forall y | InBounds(y)
      ensures Table(mem', root, y) == if y == x then Some(q) else Table(mem, root, y)
    {
      LinkKeepsTables(mem, frames, roots, places, p, e, q, root, y);
      if Parent(mem, root, y) == Some(p) && Last(y) == e {
        OnePath(mem, frames, roots, places, root, x, y);
      }
    }
  }

  lemma Absent(mem: seq<nat>, p: nat, e: nat)
    requires Next(mem, Some(p), e) == None
    ensures !Present(At(mem, p, e))
  {
  }

  /** The writes of the walks are steps of a run. */
  lemma LinkStep(mem: seq<nat>, roots: set<nat>, places: map<nat, Place>, frames: nat, k: nat, root: nat, x: Prefix, p: nat, q: nat)
    requires root in roots && InBounds(x) && Parent(mem, root, x) == Some(p) && Table(mem, root, x) == None
    requires Fresh(frames, roots, places, q)
    ensures var mem' := PutEntry(ZeroPage(mem, q), p, Last(x), q * 0x1000 + (PRESENT + WRITE));
      Worlds.Reaches(Worlds.World(mem, roots, places), Worlds.World(mem', roots, places[q := PlaceOf(root, x)]), frames, k, root)
  {
    Worlds.ReachesStep(Worlds.World(mem, roots, places), frames, k, Worlds.Link(root, x, q));
    hide Worlds.Reaches, Parent, Table, PutEntry, ZeroPage;
  }

  lemma LeafStep(mem: seq<nat>, roots: set<nat>, places: map<nat, Place>, frames: nat, k: nat, root: nat, g: Page, t: nat, w: nat)
    requires root in roots && g.Valid() && Table(mem, root, P1(g.e4, g.e3, g.e2)) == Some(t)
    ensures Worlds.Reaches(Worlds.World(mem, roots, places), Worlds.World(PutEntry(mem, t, g.e1, w), roots, places), frames, k, root)
  {
    Worlds.ReachesStep(Worlds.World(mem, roots, places), frames, k, Worlds.Leaf(root, g, w));
    hide Worlds.Reaches, Table, PutEntry;
  }

  lemma RootStep(mem: seq<nat>, roots: set<nat>, places: map<nat, Place>, frames: nat, k: nat, q: nat)
    ensures var s := Worlds.World(mem, roots, places);
      && (Fresh(frames, roots, places, q) ==>
        Worlds.Performs(s, Worlds.World(WithRoot(mem, k, q), roots + {q}, places), frames, k, Worlds.Make(q)))
      && (q in roots && q != k ==>
        Worlds.Performs(s, Worlds.World(ZeroPage(mem, q), roots - {q}, places), frames, k, Worlds.Drop(q)))
  {
    hide WithRoot, ZeroPage;
  }

  /** A table is linked as present and writable. */
  lemma LinkBits()
    ensures ENTRIES == 512 && PRESENT + WRITE == 3
  {
  }

  class Vmm {
    const frames: nat
    const memory: array<nat>
    const pmm: Pmm
    const pageMapKernel: nat
    var currentPageMap: nat
    ghost var roots: set<nat>
    ghost var places: map<nat, Place>

    /** The page tables form a tree, and none of their pages is free. */
    ghost predicate Ready()
      reads this, memory, pmm, pmm.bitmap
    {
      && pmm.Valid() && pmm.pages <= frames && (memory as object) != (pmm.bitmap as object)
      && Tree(memory[..], frames, roots, places)
      && pageMapKernel in roots && currentPageMap in roots
      && roots !! pmm.Free() && places.Keys !! pmm.Free()
      && (forall r :: r in roots ==> r < pmm.pages)
    }

    ghost function Abs(): Worlds.World
      reads this, memory
    {
      Worlds.World(memory[..], roots, places)
    }

    lemma Facts()
      ensures Abs() == Worlds.World(memory[..], roots, places)
      ensures Ready() <==>
        (&& pmm.Valid() && pmm.pages <= frames && (memory as object) != (pmm.bitmap as object)
         && Tree(memory[..], frames, roots, places)
         && pageMapKernel in roots && currentPageMap in roots
         && roots !! pmm.Free() && places.Keys !! pmm.Free()
         && (forall r :: r in roots ==> r < pmm.pages))
      ensures Ready() ==> memory.Length == frames * ENTRIES && frames <= PAGE_NUMBERS
      ensures PAGE_SIZE == 0x1000
    {
    }

    /** The pages the allocator can hand out are no tables. */
    lemma FreshPages()
      requires Ready()
      ensures forall q :: q in pmm.Ahead() ==> Fresh(frames, roots, places, q) && q in pmm.Free() && q * ENTRIES + ENTRIES <= memory.Length
    {
    }

    lemma Apart()
      requires Ready()
      ensures (memory as object) != (pmm.bitmap as object)
    {
    }

    /** `vmm_init`, up to the boot mappings: an empty kernel map. */
    constructor (memory: array<nat>, frames: nat, pmm: Pmm)
      requires memory.Length == frames * ENTRIES && frames <= PAGE_NUMBERS
      requires pmm.Valid() && pmm.pages <= frames && pmm.Ahead() != {}
      requires (memory as object) != (pmm.bitmap as object)
      modifies memory, pmm`index, pmm.bitmap
      ensures Ready() && this.memory == memory && this.pmm == pmm && roots == {pageMapKernel} && currentPageMap == pageMapKernel
      ensures pageMapKernel in old(pmm.Ahead()) && pmm.Free() == old(pmm.Free()) - {pageMapKernel}
      ensures forall g: Page :: g.Valid() ==> Translate(memory[..], pageMapKernel, g) == None
    {
      this.frames := frames;
      this.memory := memory;
      this.pmm := pmm;
      var page := AllocPage(pmm);
      pageMapKernel := page;
      currentPageMap := page;
      roots := {page};
      places := map[];
      new;
      Zero(page);
      forall e | 0 <= e < ENTRIES
        ensures At(memory[..], page, e) == 0
      {
      }
    }

    /** `memset(page, 0, page_size)`. */
    method Zero(page: nat)
      requires page * ENTRIES + ENTRIES <= memory.Length
      modifies memory
      ensures memory[..] == ZeroPage(old(memory[..]), page)
    {
      var i := 0;
      while i < ENTRIES
        invariant 0 <= i <= ENTRIES
        invariant forall k :: 0 <= k < memory.Length ==>
          memory[k] == if page * ENTRIES <= k < page * ENTRIES + i then 0 else old(memory[k])
      {
        memory[page * ENTRIES + i] := 0;
        i := i + 1;
      }
    }

    method Write(page: nat, e: nat, w: nat)
      requires page * ENTRIES + e < memory.Length
      modifies memory
      ensures memory[..] == PutEntry(old(memory[..]), page, e, w) && memory[page * ENTRIES + e] == w
    {
      memory[page * ENTRIES + e] := w;
    }

    /** `page_map_walk_entry` without allocation. */
    method FindTable(directory: nat, entry: nat) returns (table: Option<nat>)
      requires directory * ENTRIES + entry < memory.Length
      ensures table == Next(memory[..], Some(directory), entry)
    {
      var w := memory[directory * ENTRIES + entry];
      if Present(w) {
        table := Some(Target(w));
      } else {
        table := None;
      }
    }

    /** `page_map_walk_entry` with allocation, at the last step of the path `x` from `root`: the table at its
        end, which is made if it is missing. */
    method EnsureTable(directory: nat, entry: nat, ghost root: nat, ghost x: Prefix) returns (table: nat)
      requires Ready() && root in roots && InBounds(x)
      requires Parent(memory[..], root, x) == Some(directory) && Last(x) == entry
      requires Table(memory[..], root, x) == None ==> pmm.Ahead() != {}
      modifies this`places, memory, pmm`index, pmm.bitmap
      ensures Ready() && Table(memory[..], root, x) == Some(table) && table in places && places[table] == PlaceOf(root, x)
      ensures Same(old(memory[..]), memory[..], roots)
      ensures forall y :: InBounds(y) ==>
        Table(memory[..], root, y) == if y == x then Some(table) else old(Table(memory[..], root, y))
      ensures pmm.Free() <= old(pmm.Free()) && forall p :: p in places ==> p in old(places) || p in old(pmm.Free())
      ensures old(Table(memory[..], root, x)).Some? ==>
        places == old(places) && memory[..] == old(memory[..]) && pmm.Free() == old(pmm.Free()) && pmm.Ahead() == old(pmm.Ahead())
      ensures old(Table(memory[..], root, x)) == None ==>
        && table in old(pmm.Ahead()) && places == old(places)[table := PlaceOf(root, x)]
        && pmm.Free() == old(pmm.Free()) - {table} && pmm.Ahead() == old(pmm.Ahead()) - {table}
        && directory * 512 + entry < memory.Length && memory[directory * 512 + entry] == table * 0x1000 + 3
      ensures Worlds.Reaches(old(Abs()), Abs(), frames, pageMapKernel, root)
    {
      hide *;
      LinkBits();
      Facts();
      FreshPages();
      Apart();
      Located(memory[..], frames, roots, places, root, x, directory);
      var found := FindTable(directory, entry);
      Worlds.ReachesItself(Abs(), frames, pageMapKernel, root);
      if found.Some? {
        return found.value;
      }
      ghost var mem := memory[..];
      var pml := AllocPage(pmm);
      Linked(mem, frames, roots, places, root, x, directory, pml);
      LinkStep(mem, roots, places, frames, pageMapKernel, root, x, directory, pml);
      Zero(pml);
      Write(directory, entry, pml * 0x1000 + (PRESENT + WRITE));
      places := places[pml := PlaceOf(root, x)];
      table := pml;
      Facts();
    }

    /** `vmm_map`: the page translates to the new entry, and nothing else changes, whether the tables on the
        way were there or had to be made. One page is used for each missing table. */
    method Map(root: nat, paddr: u64, vaddr: u64, flags: u64)
      requires Ready() && root in roots
      requires |Missing(memory[..], root, Prefixes(PageOf(vaddr)))| <= |pmm.Ahead()|
      modifies this`places, memory, pmm`index, pmm.bitmap
      ensures Ready()
      ensures Translate(memory[..], root, PageOf(vaddr)) == Mapped(Or(paddr, flags))
      ensures SameBut(old(memory[..]), memory[..], roots, root, PageOf(vaddr))
      ensures forall y :: InBounds(y) && y !in Prefixes(PageOf(vaddr)) ==> Table(memory[..], root, y) == old(Table(memory[..], root, y))
      ensures forall y :: y in Prefixes(PageOf(vaddr)) ==> Table(memory[..], root, y).Some?
      ensures Used(old(pmm.Free()), old(pmm.Ahead()), pmm.Free(), pmm.Ahead(), |old(Missing(memory[..], root, Prefixes(PageOf(vaddr))))|)
      ensures pmm.Free() <= old(pmm.Free()) && forall p :: p in places ==> p in old(places) || p in old(pmm.Free())
      ensures Worlds.Reaches(old(Abs()), Abs(), frames, pageMapKernel, root)
    {
      hide *;
      var g := PageOf(vaddr);
      ghost var start := Abs();
      ghost var mem := memory[..];
      ghost var xs, free, ahead := Prefixes(g), pmm.Free(), pmm.Ahead();
      Facts();
      Steps(mem, root, g);
      StartSpending(mem, root, xs, free, ahead);
      ghost var n := |Missing(mem, root, xs)|;
      var pml3 := Descend(root, g.e4, root, P3(g.e4), xs, free, ahead, n);
      Steps(memory[..], root, g);
      ghost var mem1, world1 := memory[..], Abs();
      var pml2 := Descend(pml3, g.e3, root, P2(g.e4, g.e3), xs, free, ahead, n);
      Steps(memory[..], root, g);
      ghost var mem2, world2 := memory[..], Abs();
      Worlds.ReachesOn(start, world1, world2, frames, pageMapKernel, root);
      var pml1 := Descend(pml2, g.e2, root, P1(g.e4, g.e3, g.e2), xs, free, ahead, n);
      ghost var mem3, world3 := memory[..], Abs();
      Worlds.ReachesOn(start, world2, world3, frames, pageMapKernel, root);
      AllSpent(mem3, root, xs, free, ahead, n, pmm.Free(), pmm.Ahead());
      Facts();
      Apart();
      LeafWritten(mem3, frames, roots, places, root, g, pml1, Or(paddr, flags));
      LeafStep(mem3, roots, places, frames, pageMapKernel, root, g, pml1, Or(paddr, flags));
      Write(pml1, g.e1, Or(paddr, flags));
      SameThenSameBut(mem, mem1, mem2, roots, root, g);
      SameThenSameBut(mem, mem2, mem3, roots, root, g);
      SameThenSameBut(mem, mem3, memory[..], roots, root, g);
      Facts();
      Worlds.ReachesOn(start, world3, Abs(), frames, pageMapKernel, root);
    }

    /** One step of a walk that makes what is missing, within the budget of the tables `xs`. */
    method Descend(directory: nat, entry: nat, ghost root: nat, ghost x: Prefix, ghost xs: set<Prefix>,
                   ghost free0: set<nat>, ghost ahead0: set<nat>, ghost n: nat) returns (table: nat)
      requires Ready() && root in roots && InBounds(x) && x in xs
      requires Parent(memory[..], root, x) == Some(directory) && Last(x) == entry
      requires Spending(memory[..], root, xs, free0, ahead0, n, pmm.Free(), pmm.Ahead())
      modifies this`places, memory, pmm`index, pmm.bitmap
      ensures Ready() && Table(memory[..], root, x) == Some(table)
      ensures Same(old(memory[..]), memory[..], roots)
      ensures forall y :: InBounds(y) ==>
        Table(memory[..], root, y) == if y == x then Some(table) else old(Table(memory[..], root, y))
      ensures Spending(memory[..], root, xs, free0, ahead0, n, pmm.Free(), pmm.Ahead())
      ensures pmm.Free() <= old(pmm.Free()) && forall p :: p in places ==> p in old(places) || p in old(pmm.Free())
      ensures Worlds.Reaches(old(Abs()), Abs(), frames, pageMapKernel, root)
    {
      hide *;
      ghost var mem, free, ahead := memory[..], pmm.Free(), pmm.Ahead();
      Affords(mem, root, xs, free0, ahead0, n, free, ahead);
      table := EnsureTable(directory, entry, root, x);
      OneTable(mem, root, x, free, ahead, pmm.Free(), pmm.Ahead(), table);
      Spend(mem, memory[..], root, xs, {x}, free0, ahead0, n, free, ahead, pmm.Free(), pmm.Ahead());
    }

    /** `vmm_unmap`: the page is no longer translated, and nothing else changes. */
    method Unmap(root: nat, vaddr: u64)
      requires Ready() && root in roots
      modifies memory
      ensures Ready()
      ensures Translate(memory[..], root, PageOf(vaddr)) == None
      ensures SameBut(old(memory[..]), memory[..], roots, root, PageOf(vaddr))
      ensures forall y :: InBounds(y) ==> Table(memory[..], root, y) == old(Table(memory[..], root, y))
      ensures Worlds.Reaches(old(Abs()), Abs(), frames, pageMapKernel, root)
    {
      hide *;
      Facts();
      Worlds.ReachesItself(Abs(), frames, pageMapKernel, root);
      var g := PageOf(vaddr);
      ghost var mem := memory[..];
      Steps(mem, root, g);
      Located(mem, frames, roots, places, root, P3(g.e4), root);
      Unchanged(mem, roots, root, g);
      var pml3 := FindTable(root, g.e4);
      if pml3 == None {
        return;
      }
      Located(mem, frames, roots, places, root, P2(g.e4, g.e3), pml3.value);
      var pml2 := FindTable(pml3.value, g.e3);
      if pml2 == None {
        return;
      }
      Located(mem, frames, roots, places, root, P1(g.e4, g.e3, g.e2), pml2.value);
      var pml1 := FindTable(pml2.value, g.e2);
      if pml1 == None {
        return;
      }
      Apart();
      LeafWritten(mem, frames, roots, places, root, g, pml1.value, 0);
      LeafStep(mem, roots, places, frames, pageMapKernel, root, g, pml1.value, 0);
      Write(pml1.value, g.e1, 0);
      MappedZero();
      Facts();
    }

    /** `page_map_load`. */
    method Load(root: nat)
      requires Ready() && root in roots
      modifies this`currentPageMap
      ensures Ready() && currentPageMap == root
    {
      currentPageMap := root;
    }

    /** `page_map_new`: a map that agrees with the kernel map on the upper half and is empty below. */
    method New() returns (root: nat)
      requires Ready() && pmm.Ahead() != {}
      modifies this`roots, memory, pmm`index, pmm.bitmap
      ensures Ready() && root in old(pmm.Ahead()) && root !in old(roots) && roots == old(roots) + {root}
      ensures Same(old(memory[..]), memory[..], old(roots))
      ensures forall g: Page :: g.Valid() ==>
        Translate(memory[..], root, g) == if g.Lower() then None else old(Translate(memory[..], pageMapKernel, g))
      ensures pmm.Free() == old(pmm.Free()) - {root}
      ensures Worlds.Performs(old(Abs()), Abs(), frames, pageMapKernel, Worlds.Make(root))
    {
      hide *;
      Facts();
      FreshPages();
      Apart();
      ghost var mem := memory[..];
      root := AllocPage(pmm);
      RootMade(mem, frames, roots, places, pageMapKernel, root);
      RootStep(mem, roots, places, frames, pageMapKernel, root);
      Zero(root);
      CopyUpper(root, mem);
      roots := roots + {root};
      Facts();
    }

    method CopyUpper(root: nat, ghost mem: seq<nat>)
      requires memory.Length == frames * ENTRIES && |mem| == memory.Length && root < frames && pageMapKernel < frames
      requires root != pageMapKernel && memory[..] == ZeroPage(mem, root)
      modifies memory
      ensures memory[..] == WithRoot(mem, pageMapKernel, root)
    {
      var i := 256;
      while i < 512
        invariant 256 <= i <= 512
        invariant forall k :: 0 <= k < memory.Length ==> memory[k] == Copied(mem, pageMapKernel, root, i, k)
      {
        assert (pageMapKernel * ENTRIES + i) / ENTRIES == pageMapKernel;
        memory[root * ENTRIES + i] := memory[pageMapKernel * ENTRIES + i];
        i := i + 1;
      }
    }

    /** `page_map_delete`: no other map changes. The tables below the map are not given back. */
    method Delete(root: nat)
      requires Ready() && root in roots && root != pageMapKernel
      modifies this`roots, this`currentPageMap, memory, pmm`index, pmm.bitmap
      ensures Ready() && roots == old(roots) - {root}
      ensures currentPageMap == if old(currentPageMap) == root then pageMapKernel else old(currentPageMap)
      ensures Same(old(memory[..]), memory[..], roots)
      ensures pmm.Free() == old(pmm.Free()) + {root} && places == old(places)
      ensures Worlds.Performs(old(Abs()), Abs(), frames, pageMapKernel, Worlds.Drop(root))
    {
      hide *;
      Facts();
      if currentPageMap == root {
        Load(pageMapKernel);
      }
      Facts();
      Apart();
      RootDropped(memory[..], frames, roots, places, root);
      RootStep(memory[..], roots, places, frames, pageMapKernel, root);
      OnePage(root);
      Zero(root);
      pmm.Release(root * PAGE_SIZE, 1);
      roots := roots - {root};
      Facts();
    }

    /** Maps consecutive pages: the loop of `vmm_alloc` and `vmm_alloc_map_pages`. */
    method MapPages(root: nat, paddr: u64, vaddr: u64, pages: u64, flags: u64)
      requires Ready() && root in roots
      requires |Missing(memory[..], root, RangePrefixes(vaddr, pages))| <= |pmm.Ahead()|
      modifies this`places, memory, pmm`index, pmm.bitmap
      ensures Ready()
      ensures RangeMapped(old(memory[..]), memory[..], roots, root, paddr, vaddr, pages, flags)
      ensures Used(old(pmm.Free()), old(pmm.Ahead()), pmm.Free(), pmm.Ahead(),
                   |old(Missing(memory[..], root, RangePrefixes(vaddr, pages)))|)
      ensures pmm.Free() <= old(pmm.Free()) && forall p :: p in places ==> p in old(places) || p in old(pmm.Free())
      ensures Worlds.Reaches(old(Abs()), Abs(), frames, pageMapKernel, root)
    {
      hide *;
      ghost var start := Abs();
      Worlds.ReachesItself(start, frames, pageMapKernel, root);
      ghost var mem, xs, free, ahead := memory[..], RangePrefixes(vaddr, pages), pmm.Free(), pmm.Ahead();
      ghost var n := |Missing(mem, root, xs)|;
      RangeBounds(vaddr, pages);
      StartSpending(mem, root, xs, free, ahead);
      NothingMapped(mem, roots, root, paddr, vaddr, flags);
      var i := 0;
      while i < pages
        invariant 0 <= i <= pages && Ready()
        invariant Spending(memory[..], root, xs, free, ahead, n, pmm.Free(), pmm.Ahead())
        invariant RangeMapped(mem, memory[..], roots, root, paddr, vaddr, i, flags)
        invariant forall y :: y in RangePrefixes(vaddr, i) ==> Table(memory[..], root, y).Some?
        invariant pmm.Free() <= free && forall p :: p in places ==> p in old(places) || p in free
        invariant Worlds.Reaches(start, Abs(), frames, pageMapKernel, root)
      {
        ghost var was, wasFree, wasAhead := memory[..], pmm.Free(), pmm.Ahead();
        Affords(was, root, xs, free, ahead, n, wasFree, wasAhead);
        RangeNext(was, root, vaddr, i, pages);
        RangeBounds(vaddr, i);
        SamePage(vaddr, i);
        ghost var world := Abs();
        Map(root, PageAddress(paddr, i), PageAddress(vaddr, i), flags);
        Worlds.ReachesOn(start, world, Abs(), frames, pageMapKernel, root);
        Spend(was, memory[..], root, xs, Prefixes(PageOf(vaddr + i * 0x1000)), free, ahead, n, wasFree, wasAhead, pmm.Free(), pmm.Ahead());
        MappedNext(mem, was, memory[..], roots, root, paddr, vaddr, i, flags);
        i := i + 1;
      }
      AllSpent(memory[..], root, xs, free, ahead, n, pmm.Free(), pmm.Ahead());
    }

    /** `vmm_alloc`: a run of pages, mapped one to one. */
    method Alloc(root: nat, pages: nat, flags: u64) returns (addr: nat)
      requires Ready() && root in roots
      requires HasRun(pmm.Free(), pmm.pages, pages, pmm.index)
      requires Affordable(memory[..], root, pmm.Free(), pmm.pages, pmm.index, pages)
      modifies this`places, memory, pmm`index, pmm.bitmap
      ensures Ready() && IsLowest(old(pmm.Free()), pmm.pages, old(pmm.index), pages, addr / PAGE_SIZE) && addr % PAGE_SIZE == 0
      ensures RangeMapped(old(memory[..]), memory[..], roots, root, addr, addr, pages, flags)
      ensures Used(old(pmm.Free()) - Range(addr / PAGE_SIZE, pages), Beyond(old(pmm.Free()), addr / PAGE_SIZE + pages), pmm.Free(), pmm.Ahead(),
                   |old(Missing(memory[..], root, RangePrefixes(addr, pages)))|)
      ensures Range(addr / PAGE_SIZE, pages) !! pmm.Free() && Range(addr / PAGE_SIZE, pages) !! roots
      ensures Range(addr / PAGE_SIZE, pages) !! places.Keys
      ensures Worlds.Reaches(old(Abs()), Abs(), frames, pageMapKernel, root)
    {
      hide *;
      Facts();
      Apart();
      ghost var mem, free, from := memory[..], pmm.Free(), pmm.index;
      addr := pmm.Alloc(pages);
      ghost var s := addr / PAGE_SIZE;
      AllocFacts(mem, root, free, pmm.pages, from, pages, s, addr);
      AheadIs(free, s, pages);
      addr := addr / PAGE_SIZE * PAGE_SIZE;
      Facts();
      MapPages(root, addr, addr, pages, flags);
      Facts();
    }

    lemma AheadIs(free: set<nat>, s: nat, n: nat)
      requires pmm.Free() == free - Range(s, n) && pmm.index == s + n
      ensures pmm.Ahead() == Beyond(free, s + n)
    {
    }

    /** `vmm_free`: the pages are unmapped and given back. */
    method Free(root: nat, ptr: nat, pages: nat)
      requires Ready() && root in roots && ptr % PAGE_SIZE == 0 && ptr / PAGE_SIZE + pages <= pmm.pages
      requires Range(ptr / PAGE_SIZE, pages) !! roots && Range(ptr / PAGE_SIZE, pages) !! places.Keys
      modifies memory, pmm`index, pmm.bitmap
      ensures Ready()
      ensures RangeUnmapped(old(memory[..]), memory[..], roots, root, ptr, pages)
      ensures pmm.Free() == old(pmm.Free()) + Range(ptr / PAGE_SIZE, pages)
      ensures Worlds.Reaches(old(Abs()), Abs(), frames, pageMapKernel, root)
    {
      hide *;
      Facts();
      ghost var start := Abs();
      Worlds.ReachesItself(start, frames, pageMapKernel, root);
      FreeFacts(ptr, pages, pmm.pages, frames);
      ghost var mem := memory[..];
      NothingUnmapped(mem, roots, root, ptr);
      var i := 0;
      while i < pages
        invariant 0 <= i <= pages && Ready() && pmm.Free() == old(pmm.Free())
        invariant RangeUnmapped(mem, memory[..], roots, root, ptr, i)
        invariant Worlds.Reaches(start, Abs(), frames, pageMapKernel, root)
      {
        Apart();
        ghost var was, world := memory[..], Abs();
        SamePage(ptr, i);
        Unmap(root, PageAddress(ptr, i));
        Worlds.ReachesOn(start, world, Abs(), frames, pageMapKernel, root);
        UnmappedNext(mem, was, memory[..], roots, root, ptr, i);
        i := i + 1;
      }
      Facts();
      pmm.Release(ptr, pages);
      Facts();
    }

    /** Allocating and freeing leaves the pages unmapped, every other translation as it was, and the free pages
        as they were but for the pages of the tables that the mapping made. */
    method AllocThenFree(root: nat, pages: nat, flags: u64) returns (addr: nat)
      requires Ready() && root in roots
      requires HasRun(pmm.Free(), pmm.pages, pages, pmm.index)
      requires Affordable(memory[..], root, pmm.Free(), pmm.pages, pmm.index, pages)
      modifies this`places, memory, pmm`index, pmm.bitmap
      ensures Ready()
      ensures RangeUnmapped(old(memory[..]), memory[..], roots, root, addr, pages)
      ensures pmm.Free() <= old(pmm.Free())
      ensures |old(pmm.Free()) - pmm.Free()| == |old(Missing(memory[..], root, RangePrefixes(addr, pages)))|
    {
      hide *;
      ghost var mem, free := memory[..], pmm.Free();
      addr := Alloc(root, pages, flags);
      Facts();
      ghost var mem1, free1, ahead1, s := memory[..], pmm.Free(), pmm.Ahead(), addr / PAGE_SIZE;
      LowestFits(free, pmm.pages, old(pmm.index), pages, s);
      Free(root, addr, pages);
      MappedThenUnmapped(mem, mem1, memory[..], roots, root, addr, pages, flags);
      Returned(free, Range(s, pages), Beyond(free, s + pages), free1, ahead1, |Missing(mem, root, RangePrefixes(addr, pages))|);
    }
  }

  lemma MappedZero()
    ensures Mapped(0) == None
  {
  }

  lemma Unchanged(mem: seq<nat>, roots: set<nat>, root: nat, g: Page)
    ensures SameBut(mem, mem, roots, root, g)
  {
  }
}