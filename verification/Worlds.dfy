/**
 Runs of address-space operations, as steps on the whole of physical memory (`src/mm/vmm.c`).

 `vmm_map` is a run of links and one write of a last-level entry, `vmm_unmap` such a write, `page_map_new` and
 `page_map_delete` make and drop a root. Which page a new table takes is up to the allocator.
 */
module Worlds {
  import opened Words
  import opened PageTables

  /** Physical memory, the roots, and the places of the tables below them. */
  datatype World = World(mem: seq<nat>, roots: set<nat>, places: map<nat, Place>)

  datatype Op =
    | Link(root: nat, x: Prefix, q: nat)
    | Leaf(root: nat, g: Page, w: nat)
    | Make(q: nat)
    | Drop(q: nat)

  /** A link ends a path that lacks its last table; the kernel map `k` is not dropped; new tables are unused pages. */
  ghost predicate Possible(s: World, frames: nat, k: nat, op: Op) {
    match op
    case Link(root, x, q) =>
      && root in s.roots && InBounds(x) && Parent(s.mem, root, x).Some? && Table(s.mem, root, x) == None
      && Fresh(frames, s.roots, s.places, q)
    case Leaf(root, g, w) => root in s.roots && g.Valid() && Table(s.mem, root, Path1(g)).Some?
    case Make(q) => Fresh(frames, s.roots, s.places, q)
    case Drop(q) => q in s.roots && q != k
  }

  ghost function Step(s: World, frames: nat, k: nat, op: Op): World
    requires Possible(s, frames, k, op)
  {
    match op
    case Link(root, x, q) =>
      World(WithTable(s.mem, Parent(s.mem, root, x).value, Last(x), q), s.roots, s.places[q := PlaceOf(root, x)])
    case Leaf(root, g, w) => s.(mem := PutEntry(s.mem, Table(s.mem, root, Path1(g)).value, g.e1, w))
    case Make(q) => s.(mem := WithRoot(s.mem, k, q), roots := s.roots + {q})
    case Drop(q) => s.(mem := ZeroPage(s.mem, q), roots := s.roots - {q})
  }

  /** The operation leads from one world to another. */
  ghost predicate Performs(s: World, t: World, frames: nat, k: nat, op: Op) {
    Possible(s, frames, k, op) && t == Step(s, frames, k, op)
  }

  ghost predicate AllPossible(s: World, frames: nat, k: nat, ops: seq<Op>)
    decreases |ops|
  {
    ops == [] || (Possible(s, frames, k, ops[0]) && AllPossible(Step(s, frames, k, ops[0]), frames, k, ops[1..]))
  }

  ghost function After(s: World, frames: nat, k: nat, ops: seq<Op>): World
    requires AllPossible(s, frames, k, ops)
    decreases |ops|
  {
    if ops == [] then s else After(Step(s, frames, k, ops[0]), frames, k, ops[1..])
  }

  /** All operations work on the map with the given root. */
  predicate Within(ops: seq<Op>, root: nat) {
    forall i :: 0 <= i < |ops| ==> (ops[i].Link? || ops[i].Leaf?) && ops[i].root == root
  }

  /** A run of operations on one map leads from one world to another. */
  ghost predicate Reaches(s: World, t: World, frames: nat, k: nat, root: nat) {
    exists ops :: Within(ops, root) && AllPossible(s, frames, k, ops) && After(s, frames, k, ops) == t
  }

  lemma ReachesItself(s: World, frames: nat, k: nat, root: nat)
    ensures Reaches(s, s, frames, k, root)
  {
    assert Within([], root) && AllPossible(s, frames, k, []) && After(s, frames, k, []) == s;
  }

  lemma ReachesStep(s: World, frames: nat, k: nat, op: Op)
    requires Possible(s, frames, k, op) && (op.Link? || op.Leaf?)
    ensures Reaches(s, Step(s, frames, k, op), frames, k, op.root)
  {
    hide Possible, Step;
    var t := Step(s, frames, k, op);
    assert AllPossible(t, frames, k, []) && After(t, frames, k, []) == t;
    assert [op][1..] == [];
    assert Within([op], op.root) && AllPossible(s, frames, k, [op]) && After(s, frames, k, [op]) == t;
  }

  lemma {:induction false} RunsCompose(s: World, frames: nat, k: nat, a: seq<Op>, b: seq<Op>)
    requires AllPossible(s, frames, k, a) && AllPossible(After(s, frames, k, a), frames, k, b)
    ensures AllPossible(s, frames, k, a + b) && After(s, frames, k, a + b) == After(After(s, frames, k, a), frames, k, b)
    decreases |a|
  {
    hide Possible, Step;
    if a == [] {
      assert a + b == b;
    } else {
      RunsCompose(Step(s, frames, k, a[0]), frames, k, a[1..], b);
      assert (a + b)[1..] == a[1..] + b;
    }
  }

  lemma ReachesOn(s: World, t: World, u: World, frames: nat, k: nat, root: nat)
    requires Reaches(s, t, frames, k, root) && Reaches(t, u, frames, k, root)
    ensures Reaches(s, u, frames, k, root)
  {
    hide AllPossible, After;
    var a :| Within(a, root) && AllPossible(s, frames, k, a) && After(s, frames, k, a) == t;
    var b :| Within(b, root) && AllPossible(t, frames, k, b) && After(t, frames, k, b) == u;
    RunsCompose(s, frames, k, a, b);
    assert Within(a + b, root);
  }
}
