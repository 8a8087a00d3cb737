/**
 Four-level page tables as words of physical memory (`src/mm/vmm.c`; section 4.5 of volume 3A of the
 Intel 64 and IA-32 Architectures Software Developer's Manual).

 A table is a page of 512 words. The places of the tables below the roots say which path leads to
 each of them; tables in the lower half also have an owner, the root they hang from.
 */
module PageTables {
  import opened Words
  import opened Bits

  const ENTRIES: nat := 512
  const PRESENT: nat := 1
  const WRITE: nat := 2

  /** Page numbers are the 40 bits above the page offset. */
  const PAGE_NUMBERS: nat := 0x100_0000_0000

  // ---- Words

  predicate Present(w: nat) {
    w % 2 == 1
  }

  /** The page number of an entry: `w & 0x000FFFFFFFFFF000`, in pages. */
  function Target(w: nat): (page: nat)
    ensures page < PAGE_NUMBERS
  {
    w / 0x1000 % PAGE_NUMBERS
  }

  lemma Powers()
    ensures Pow2(12) == 0x1000 && Pow2(40) == PAGE_NUMBERS
  {
    assert Pow2(10) == 0x400;
    assert Pow2(12) == 0x1000;
    assert Pow2(20) == 0x10_0000;
    assert Pow2(30) == 0x4000_0000;
    assert Pow2(40) == PAGE_NUMBERS;
  }

  lemma OrAt12(a: nat, b: nat, x: nat, y: nat)
    requires x < 0x1000 && y < 0x1000
    ensures Or(a * 0x1000 + x, b * 0x1000 + y) == Or(a, b) * 0x1000 + Or(x, y)
  {
    Powers();
    OrSplit(a, b, x, y, 12);
    hide Or, Pow2;
  }

  lemma OrAt40(a: nat, b: nat, x: nat, y: nat)
    requires x < PAGE_NUMBERS && y < PAGE_NUMBERS
    ensures Or(a * PAGE_NUMBERS + x, b * PAGE_NUMBERS + y) == Or(a, b) * PAGE_NUMBERS + Or(x, y)
  {
    Powers();
    OrSplit(a, b, x, y, 40);
    hide Or, Pow2;
  }

  lemma Fields(p: nat, f: nat, high: nat)
    requires p < PAGE_NUMBERS && f < 0x1000
    ensures var w := (high * PAGE_NUMBERS + p) * 0x1000 + f;
      Target(w) == p && (Present(w) <==> f % 2 == 1) && w == p * 0x1000 + (high * PAGE_NUMBERS * 0x1000 + f)
  {
    var w := (high * PAGE_NUMBERS + p) * 0x1000 + f;
    assert w / 0x1000 == high * PAGE_NUMBERS + p;
  }

  /** An aligned address below 2^52 and flags outside the address bits do not interfere in an entry. */
  lemma EntryFields(paddr: u64, flags: u64)
    requires paddr % 0x1000 == 0 && paddr / 0x1000 < PAGE_NUMBERS && flags / 0x1000 % PAGE_NUMBERS == 0
    ensures var w := Or(paddr, flags);
      w == paddr + flags && Target(w) == paddr / 0x1000 && (Present(w) <==> flags % 2 == 1)
  {
    hide Or, Target, Present;
    var p, f, high := paddr / 0x1000, flags % 0x1000, flags / 0x1000 / PAGE_NUMBERS;
    assert flags == high * PAGE_NUMBERS * 0x1000 + f && flags % 2 == f % 2;
    OrAt12(p, high * PAGE_NUMBERS, 0, f);
    OrAt40(0, high, p, 0);
    OrLeft(f);
    OrLeft(high);
    OrZero(p);
    Fields(p, f, high);
  }

  // ---- Memory

  /** The word `e` of page `p`. */
  function At(mem: seq<nat>, p: nat, e: nat): nat {
    if p * ENTRIES + e < |mem| then mem[p * ENTRIES + e] else 0
  }

  function PutEntry(mem: seq<nat>, p: nat, e: nat, w: nat): (r: seq<nat>)
    ensures |r| == |mem|
    ensures e < ENTRIES && p * ENTRIES + e < |mem| ==>
      forall p', e' :: 0 <= p' && 0 <= e' < ENTRIES ==> At(r, p', e') == if p' == p && e' == e then w else At(mem, p', e')
  {
    if p * ENTRIES + e < |mem| then mem[p * ENTRIES + e := w] else mem
  }

  function ZeroPage(mem: seq<nat>, q: nat): (r: seq<nat>)
    ensures |r| == |mem|
    ensures forall p, e :: 0 <= p && 0 <= e < ENTRIES ==> At(r, p, e) == if p == q then 0 else At(mem, p, e)
  {
    seq(|mem|, i requires 0 <= i < |mem| => if i / ENTRIES == q then 0 else mem[i])
  }

  // ---- Translation

  /** The four table indices of an address. */
  datatype Page = Page(e4: nat, e3: nat, e2: nat, e1: nat) {
    predicate Valid() {
      e4 < ENTRIES && e3 < ENTRIES && e2 < ENTRIES && e1 < ENTRIES
    }

    /** Canonical addresses below and above the hole are those of the lower and the upper half of a root. */
    predicate Lower() {
      e4 < 256
    }
  }

  function PageOf(vaddr: nat): (g: Page)
    ensures g.Valid()
  {
    var n := vaddr / 0x1000;
    Page(n / 0x800_0000 % ENTRIES, n / 0x4_0000 % ENTRIES, n / 0x200 % ENTRIES, n % ENTRIES)
  }

  /** A path from a root to a table. */
  datatype Prefix = P3(e4: nat) | P2(e4: nat, e3: nat) | P1(e4: nat, e3: nat, e2: nat)

  predicate InBounds(x: Prefix) {
    match x
    case P3(a) => a < ENTRIES
    case P2(a, b) => a < ENTRIES && b < ENTRIES
    case P1(a, b, c) => a < ENTRIES && b < ENTRIES && c < ENTRIES
  }

  function Last(x: Prefix): nat {
    match x
    case P3(a) => a
    case P2(_, b) => b
    case P1(_, _, c) => c
  }

  function Path1(g: Page): Prefix {
    P1(g.e4, g.e3, g.e2)
  }

  /** The tables on the way to a page. */
  function Prefixes(g: Page): set<Prefix> {
    {P3(g.e4), P2(g.e4, g.e3), Path1(g)}
  }

  /** One step of a walk: `page_map_walk_entry` without allocation. */
  function Next(mem: seq<nat>, t: Option<nat>, e: nat): Option<nat> {
    if t.Some? && Present(At(mem, t.value, e)) then Some(Target(At(mem, t.value, e))) else None
  }

  function Parent(mem: seq<nat>, r: nat, x: Prefix): Option<nat> {
    match x
    case P3(_) => Some(r)
    case P2(a, _) => Next(mem, Some(r), a)
    case P1(a, b, _) => Next(mem, Next(mem, Some(r), a), b)
  }

  /** The table a path leads to. */
  function Table(mem: seq<nat>, r: nat, x: Prefix): Option<nat> {
    Next(mem, Parent(mem, r, x), Last(x))
  }

  function Mapped(w: nat): Option<nat> {
    if Present(w) then Some(w) else None
  }

  /** The entry that translates a page, if it is present: the abstract map of an address space. */
  function Translate(mem: seq<nat>, r: nat, g: Page): Option<nat> {
    var t := Table(mem, r, Path1(g));
    if t.Some? then Mapped(At(mem, t.value, g.e1)) else None
  }

  /** A word of the memory. */
  function WordAt(mem: seq<nat>, i: nat): nat {
    if i < |mem| then mem[i] else 0
  }

  /** The walk of the processor, in words and bits of the address: four present entries, of which the last one is the
      translation. */
  lemma WalkIs(mem: seq<nat>, r: nat, vaddr: u64)
    ensures var w4 := WordAt(mem, r * 512 + vaddr / 0x80_0000_0000 % 512);
      var w3 := WordAt(mem, w4 / 0x1000 % 0x100_0000_0000 * 512 + vaddr / 0x4000_0000 % 512);
      var w2 := WordAt(mem, w3 / 0x1000 % 0x100_0000_0000 * 512 + vaddr / 0x20_0000 % 512);
      var w1 := WordAt(mem, w2 / 0x1000 % 0x100_0000_0000 * 512 + vaddr / 0x1000 % 512);
      Translate(mem, r, PageOf(vaddr)) == if w4 % 2 == 1 && w3 % 2 == 1 && w2 % 2 == 1 && w1 % 2 == 1 then Some(w1) else None
  {
    var n := vaddr / 0x1000;
    assert n / 0x800_0000 == vaddr / 0x80_0000_0000 && n / 0x4_0000 == vaddr / 0x4000_0000 && n / 0x200 == vaddr / 0x20_0000;
  }

  // ---- The tree

  datatype Place =
    | Pml3(owner: Option<nat>, e4: nat)
    | Pml2(owner: Option<nat>, e4: nat, e3: nat)
    | Pml1(owner: Option<nat>, e4: nat, e3: nat, e2: nat)

  /** Tables in the upper half may be shared by all roots. */
  function Owner(r: nat, e: nat): Option<nat> {
    if e < 256 then Some(r) else None
  }

  function Child(place: Place, e: nat): Place {
    match place
    case Pml3(owner, e4) => Pml2(owner, e4, e)
    case Pml2(owner, e4, e3) => Pml1(owner, e4, e3, e)
    case Pml1(_, _, _, _) => place
  }

  /** The entry is absent, or leads to a table in the given place. */
  ghost predicate Leads(mem: seq<nat>, places: map<nat, Place>, t: nat, e: nat, place: Place) {
    Present(At(mem, t, e)) ==> Target(At(mem, t, e)) in places && places[Target(At(mem, t, e))] == place
  }

  /** The tables below each root form a tree, lower halves apart from each other. */
  ghost predicate Tree(mem: seq<nat>, frames: nat, roots: set<nat>, places: map<nat, Place>) {
    && |mem| == frames * ENTRIES && frames <= PAGE_NUMBERS
    && (forall r :: r in roots ==> r < frames && r !in places)
    && (forall t :: t in places ==> t < frames)
    && (forall r, e :: r in roots && 0 <= e < ENTRIES ==> Leads(mem, places, r, e, Pml3(Owner(r, e), e)))
    && (forall t, e :: t in places && !places[t].Pml1? && 0 <= e < ENTRIES ==> Leads(mem, places, t, e, Child(places[t], e)))
  }

  /** The place of the table at the end of a path from `r`. */
  function PlaceOf(r: nat, x: Prefix): Place {
    match x
    case P3(a) => Pml3(Owner(r, a), a)
    case P2(a, b) => Pml2(Owner(r, a), a, b)
    case P1(a, b, c) => Pml1(Owner(r, a), a, b, c)
  }

  ghost predicate Stands(places: map<nat, Place>, t: Option<nat>, place: Place) {
    t.Some? ==> t.value in places && places[t.value] == place
  }

  /** A walk stays on its path. */
  lemma Walks(mem: seq<nat>, frames: nat, roots: set<nat>, places: map<nat, Place>, r: nat, x: Prefix)
    requires Tree(mem, frames, roots, places) && r in roots && InBounds(x)
    ensures Stands(places, Table(mem, r, x), PlaceOf(r, x))
    ensures x.P2? ==> Stands(places, Parent(mem, r, x), PlaceOf(r, P3(x.e4)))
    ensures x.P1? ==> Stands(places, Parent(mem, r, x), PlaceOf(r, P2(x.e4, x.e3)))
  {
    assert Leads(mem, places, r, x.e4, Pml3(Owner(r, x.e4), x.e4));
    if !x.P3? {
      var t3 := Next(mem, Some(r), x.e4);
      if t3.Some? {
        assert Leads(mem, places, t3.value, x.e3, Child(places[t3.value], x.e3));
        if x.P1? {
          var t2 := Next(mem, t3, x.e3);
          if t2.Some? {
            assert Leads(mem, places, t2.value, x.e2, Child(places[t2.value], x.e2));
          }
        }
      }
    }
  }

  /** The place of a new table under entry `e` of `p`. */
  ghost function PlaceUnder(places: map<nat, Place>, p: nat, e: nat): Place {
    if p in places then Child(places[p], e) else Pml3(Owner(p, e), e)
  }

  /** A table whose entries lead to tables. */
  ghost predicate Directory(roots: set<nat>, places: map<nat, Place>, p: nat) {
    p in roots || (p in places && !places[p].Pml1?)
  }

  /** The memory after a fresh page `q` is zeroed and linked. */
  function WithTable(mem: seq<nat>, p: nat, e: nat, q: nat): seq<nat> {
    PutEntry(ZeroPage(mem, q), p, e, q * 0x1000 + 3)
  }

  ghost predicate Fresh(frames: nat, roots: set<nat>, places: map<nat, Place>, q: nat) {
    q < frames && q !in roots && q !in places
  }

  /** The entry that leads to table `q`. */
  lemma LinkWord(q: nat)
    requires q < PAGE_NUMBERS
    ensures Present(q * 0x1000 + 3) && Target(q * 0x1000 + 3) == q
  {
    Fields(q, 3, 0);
    hide Target, Present;
  }

  lemma WithTableAt(mem: seq<nat>, frames: nat, p: nat, e: nat, q: nat)
    requires |mem| == frames * ENTRIES && p < frames && e < ENTRIES && p != q && q < PAGE_NUMBERS
    ensures Present(q * 0x1000 + 3) && Target(q * 0x1000 + 3) == q
    ensures forall p', e' :: 0 <= p' && 0 <= e' < ENTRIES ==>
      At(WithTable(mem, p, e, q), p', e') ==
        if p' == p && e' == e then q * 0x1000 + 3 else if p' == q then 0 else At(mem, p', e')
  {
    LinkWord(q);
    hide Target, Present, At, ZeroPage;
  }

  /** Linking a fresh empty table keeps the tree. */
  lemma LinkKeepsTree(mem: seq<nat>, frames: nat, roots: set<nat>, places: map<nat, Place>, p: nat, e: nat, q: nat)
    requires Tree(mem, frames, roots, places) && Directory(roots, places, p) && e < ENTRIES
    requires Fresh(frames, roots, places, q) && !Present(At(mem, p, e))
    ensures Tree(WithTable(mem, p, e, q), frames, roots, places[q := PlaceUnder(places, p, e)])
  {
    WithTableAt(mem, frames, p, e, q);
    var mem', places' := WithTable(mem, p, e, q), places[q := PlaceUnder(places, p, e)];
    hide WithTable, At, Target, Present;
    forall r, e' | r in roots && 0 <= e' < ENTRIES
      ensures Leads(mem', places', r, e', Pml3(Owner(r, e'), e'))
    {
      assert Leads(mem, places, r, e', Pml3(Owner(r, e'), e'));
    }
    forall t, e' | t in places' && !places'[t].Pml1? && 0 <= e' < ENTRIES
      ensures Leads(mem', places', t, e', Child(places'[t], e'))
    {
      if t != q {
        assert Leads(mem, places, t, e', Child(places[t], e'));
      } else {
        assert !Present(At(mem', t, e')) by { NotPresent(); }
      }
    }
  }

  lemma NotPresent()
    ensures !Present(0)
  {
  }

  /** Linking adds no path but those to the new table, and no translation. */
  lemma LinkKeepsTables(mem: seq<nat>, frames: nat, roots: set<nat>, places: map<nat, Place>, p: nat, e: nat, q: nat, r: nat, x: Prefix)
    requires Tree(mem, frames, roots, places) && Directory(roots, places, p) && e < ENTRIES
    requires Fresh(frames, roots, places, q) && !Present(At(mem, p, e))
    requires r in roots && InBounds(x)
    ensures var mem' := WithTable(mem, p, e, q);
      Table(mem', r, x) == if Parent(mem, r, x) == Some(p) && Last(x) == e then Some(q) else Table(mem, r, x)
  {
    WithTableAt(mem, frames, p, e, q);
    Walks(mem, frames, roots, places, r, x);
    NotPresent();
    hide WithTable, At, Target, Present;
  }

  lemma LinkKeepsTranslations(mem: seq<nat>, frames: nat, roots: set<nat>, places: map<nat, Place>, p: nat, e: nat, q: nat, r: nat, g: Page)
    requires Tree(mem, frames, roots, places) && Directory(roots, places, p) && e < ENTRIES
    requires Fresh(frames, roots, places, q) && !Present(At(mem, p, e))
    requires r in roots && g.Valid()
    ensures Translate(WithTable(mem, p, e, q), r, g) == Translate(mem, r, g)
  {
    WithTableAt(mem, frames, p, e, q);
    Walks(mem, frames, roots, places, r, Path1(g));
    LinkKeepsTables(mem, frames, roots, places, p, e, q, r, Path1(g));
    NotPresent();
    hide WithTable, At, Target, Present, Table;
  }

  /** Writing an entry of a last-level table changes the translation of one page, and keeps the tree. */
  lemma LeafKeepsTree(mem: seq<nat>, frames: nat, roots: set<nat>, places: map<nat, Place>, t: nat, e: nat, w: nat)
    requires Tree(mem, frames, roots, places) && t in places && places[t].Pml1? && e < ENTRIES
    ensures Tree(PutEntry(mem, t, e, w), frames, roots, places)
  {
    var mem' := PutEntry(mem, t, e, w);
    hide At, Target, Present, PutEntry;
    forall r, e' | r in roots && 0 <= e' < ENTRIES
      ensures Leads(mem', places, r, e', Pml3(Owner(r, e'), e'))
    {
      assert Leads(mem, places, r, e', Pml3(Owner(r, e'), e'));
    }
    forall t', e' | t' in places && !places[t'].Pml1? && 0 <= e' < ENTRIES
      ensures Leads(mem', places, t', e', Child(places[t'], e'))
    {
      assert Leads(mem, places, t', e', Child(places[t'], e'));
    }
  }

  lemma LeafTranslations(mem: seq<nat>, frames: nat, roots: set<nat>, places: map<nat, Place>, t: nat, e: nat, w: nat, r: nat, g: Page)
    requires Tree(mem, frames, roots, places) && t in places && places[t].Pml1? && e < ENTRIES
    requires r in roots && g.Valid()
    ensures Translate(PutEntry(mem, t, e, w), r, g)
      == if Table(mem, r, Path1(g)) == Some(t) && g.e1 == e then Mapped(w) else Translate(mem, r, g)
  {
    LeafTables(mem, frames, roots, places, t, e, w, r, Path1(g));
    Walks(mem, frames, roots, places, r, Path1(g));
    hide Table, Target, PutEntry;
  }

  /** Paths are not affected. */
  lemma LeafTables(mem: seq<nat>, frames: nat, roots: set<nat>, places: map<nat, Place>, t: nat, e: nat, w: nat, r: nat, x: Prefix)
    requires Tree(mem, frames, roots, places) && t in places && places[t].Pml1? && e < ENTRIES
    requires r in roots && InBounds(x)
    ensures Table(PutEntry(mem, t, e, w), r, x) == Table(mem, r, x) && Parent(PutEntry(mem, t, e, w), r, x) == Parent(mem, r, x)
  {
    Walks(mem, frames, roots, places, r, x);
    hide At, Target, Present, PutEntry;
  }

  /** The memory after page `q` becomes a root: empty below, the upper half copied from `k`. */
  function WithRoot(mem: seq<nat>, k: nat, q: nat): (r: seq<nat>)
    ensures |r| == |mem|
    ensures forall p, e :: 0 <= p && 0 <= e < ENTRIES && p * ENTRIES + e < |mem| ==>
      At(r, p, e) == if p == q then (if e < 256 then 0 else At(mem, k, e)) else At(mem, p, e)
  {
    seq(|mem|, i requires 0 <= i < |mem| =>
      if i / ENTRIES == q then (if i % ENTRIES < 256 then 0 else At(mem, k, i % ENTRIES)) else mem[i])
  }

  lemma RootKeepsTree(mem: seq<nat>, frames: nat, roots: set<nat>, places: map<nat, Place>, k: nat, q: nat)
    requires Tree(mem, frames, roots, places) && k in roots && Fresh(frames, roots, places, q)
    ensures Tree(WithRoot(mem, k, q), frames, roots + {q}, places)
  {
    var mem', roots' := WithRoot(mem, k, q), roots + {q};
    WithRootAt(mem, frames, k, q);
    NotPresent();
    hide At, Target, Present, WithRoot;
    forall r, e' | r in roots' && 0 <= e' < ENTRIES
      ensures Leads(mem', places, r, e', Pml3(Owner(r, e'), e'))
    {
      if r == q {
        assert Leads(mem, places, k, e', Pml3(Owner(k, e'), e'));
      } else {
        assert Leads(mem, places, r, e', Pml3(Owner(r, e'), e'));
      }
    }
    forall t', e' | t' in places && !places[t'].Pml1? && 0 <= e' < ENTRIES
      ensures Leads(mem', places, t', e', Child(places[t'], e'))
    {
      assert Leads(mem, places, t', e', Child(places[t'], e'));
    }
  }

  lemma WithRootAt(mem: seq<nat>, frames: nat, k: nat, q: nat)
    requires |mem| == frames * ENTRIES
    ensures forall p, e :: 0 <= p < frames && 0 <= e < ENTRIES ==>
      At(WithRoot(mem, k, q), p, e) == if p == q then (if e < 256 then 0 else At(mem, k, e)) else At(mem, p, e)
  {
  }

  /** A new root agrees with `k` on the upper half and translates nothing in the lower half. */
  lemma RootTranslations(mem: seq<nat>, frames: nat, roots: set<nat>, places: map<nat, Place>, k: nat, q: nat, r: nat, g: Page)
    requires Tree(mem, frames, roots, places) && k in roots && Fresh(frames, roots, places, q)
    requires r in roots + {q} && g.Valid()
    ensures Translate(WithRoot(mem, k, q), r, g)
      == if r != q then Translate(mem, r, g) else if g.Lower() then None else Translate(mem, k, g)
  {
    WithRootAt(mem, frames, k, q);
    NotPresent();
    Walks(mem, frames, roots, places, if r == q then k else r, Path1(g));
    hide WithRoot, At, Target, Present;
  }

  /** A root can be cleared without effect on any other one. */
  lemma DropKeepsTree(mem: seq<nat>, frames: nat, roots: set<nat>, places: map<nat, Place>, q: nat)
    requires Tree(mem, frames, roots, places) && q in roots
    ensures Tree(ZeroPage(mem, q), frames, roots - {q}, places)
  {
    var mem', roots' := ZeroPage(mem, q), roots - {q};
    hide At, Target, Present, ZeroPage;
    forall r, e' | r in roots' && 0 <= e' < ENTRIES
      ensures Leads(mem', places, r, e', Pml3(Owner(r, e'), e'))
    {
      assert Leads(mem, places, r, e', Pml3(Owner(r, e'), e'));
    }
    forall t', e' | t' in places && !places[t'].Pml1? && 0 <= e' < ENTRIES
      ensures Leads(mem', places, t', e', Child(places[t'], e'))
    {
      assert Leads(mem, places, t', e', Child(places[t'], e'));
    }
  }

  lemma DropTranslations(mem: seq<nat>, frames: nat, roots: set<nat>, places: map<nat, Place>, q: nat, r: nat, g: Page)
    requires Tree(mem, frames, roots, places) && q in roots && r in roots - {q} && g.Valid()
    ensures Translate(ZeroPage(mem, q), r, g) == Translate(mem, r, g)
  {
    Walks(mem, frames, roots, places, r, Path1(g));
    hide At, Target, Present, ZeroPage;
  }
}
