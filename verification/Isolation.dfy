/**
 Address-space isolation over whole runs of operations on any number of maps.
 */
module Isolation {
  import opened Words
  import opened PageTables
  import opened Worlds
  import opened AddressSpaces

  ghost predicate Sound(s: World, frames: nat, k: nat) {
    Tree(s.mem, frames, s.roots, s.places) && k in s.roots
  }

  lemma LinkSound(s: World, frames: nat, k: nat, op: Op)
    requires Sound(s, frames, k) && Possible(s, frames, k, op) && op.Link?
    ensures Sound(Step(s, frames, k, op), frames, k)
    ensures Same(s.mem, Step(s, frames, k, op).mem, s.roots)
  {
    Linked(s.mem, frames, s.roots, s.places, op.root, op.x, Parent(s.mem, op.root, op.x).value, op.q);
    hide Tree, Same, Translate, Table, Parent, PutEntry, ZeroPage, WithRoot, Fresh;
  }

  lemma LeafSound(s: World, frames: nat, k: nat, op: Op)
    requires Sound(s, frames, k) && Possible(s, frames, k, op) && op.Leaf?
    ensures Sound(Step(s, frames, k, op), frames, k)
    ensures SameBut(s.mem, Step(s, frames, k, op).mem, s.roots, op.root, op.g)
    ensures Translate(Step(s, frames, k, op).mem, op.root, op.g) == Mapped(op.w)
  {
    LeafWritten(s.mem, frames, s.roots, s.places, op.root, op.g, Table(s.mem, op.root, Path1(op.g)).value, op.w);
    hide Tree, SameBut, Translate, Table, Mapped, PutEntry, ZeroPage, WithRoot, Fresh;
  }

  lemma MakeSound(s: World, frames: nat, k: nat, op: Op)
    requires Sound(s, frames, k) && Possible(s, frames, k, op) && op.Make?
    ensures Sound(Step(s, frames, k, op), frames, k)
    ensures Same(s.mem, Step(s, frames, k, op).mem, s.roots) && op.q !in s.roots
    ensures forall g: Page :: g.Valid() ==>
      Translate(Step(s, frames, k, op).mem, op.q, g) == if g.Lower() then None else Translate(s.mem, k, g)
  {
    RootMade(s.mem, frames, s.roots, s.places, k, op.q);
    hide Tree, Same, Translate, Table, PutEntry, ZeroPage, WithRoot, Fresh;
  }

  lemma DropSound(s: World, frames: nat, k: nat, op: Op)
    requires Sound(s, frames, k) && Possible(s, frames, k, op) && op.Drop?
    ensures Sound(Step(s, frames, k, op), frames, k)
    ensures Same(s.mem, Step(s, frames, k, op).mem, s.roots - {op.q})
  {
    RootDropped(s.mem, frames, s.roots, s.places, op.q);
    hide Tree, Same, Translate, Table, PutEntry, ZeroPage, WithRoot, Fresh;
  }

  /** One operation keeps the tree, and every translation but the ones it is for. */
  lemma StepKeeps(s: World, frames: nat, k: nat, op: Op)
    requires Sound(s, frames, k) && Possible(s, frames, k, op)
    ensures Sound(Step(s, frames, k, op), frames, k)
    ensures op.Link? ==> Same(s.mem, Step(s, frames, k, op).mem, s.roots)
    ensures op.Leaf? ==> SameBut(s.mem, Step(s, frames, k, op).mem, s.roots, op.root, op.g)
    ensures op.Leaf? ==> Translate(Step(s, frames, k, op).mem, op.root, op.g) == Mapped(op.w)
    ensures op.Make? ==> Same(s.mem, Step(s, frames, k, op).mem, s.roots) && op.q !in s.roots
    ensures op.Make? ==> forall g: Page :: g.Valid() ==>
      Translate(Step(s, frames, k, op).mem, op.q, g) == if g.Lower() then None else Translate(s.mem, k, g)
    ensures op.Drop? ==> Same(s.mem, Step(s, frames, k, op).mem, s.roots - {op.q})
  {
    hide *;
    match op
    case Link(_, _, _) => LinkSound(s, frames, k, op);
    case Leaf(_, _, _) => LeafSound(s, frames, k, op);
    case Make(_) => MakeSound(s, frames, k, op);
    case Drop(_) => DropSound(s, frames, k, op);
  }

  lemma {:induction false} RunKeepsTree(s: World, frames: nat, k: nat, ops: seq<Op>)
    requires Sound(s, frames, k) && AllPossible(s, frames, k, ops)
    ensures Sound(After(s, frames, k, ops), frames, k)
    decreases |ops|
  {
    hide Sound, Possible, Step;
    if ops != [] {
      StepKeeps(s, frames, k, ops[0]);
      RunKeepsTree(Step(s, frames, k, ops[0]), frames, k, ops[1..]);
    }
  }

  // ---- The lower half

  /** What an operation does to the translation of a page of the map `r`: only writes of this page and the making of
      the map count. */
  function NextView(v: Option<nat>, r: nat, g: Page, op: Op): Option<nat> {
    match op
    case Link(_, _, _) => v
    case Leaf(root, g', w) => if root == r && g' == g then Mapped(w) else v
    case Make(q) => if q == r then None else v
    case Drop(_) => v
  }

  function View(v: Option<nat>, r: nat, g: Page, ops: seq<Op>): Option<nat>
    decreases |ops|
  {
    if ops == [] then v else View(NextView(v, r, g, ops[0]), r, g, ops[1..])
  }

  lemma StepView(s: World, frames: nat, k: nat, op: Op, r: nat, g: Page, v: Option<nat>)
    requires Sound(s, frames, k) && Possible(s, frames, k, op) && r in Step(s, frames, k, op).roots && g.Valid() && g.Lower()
    requires r in s.roots ==> v == Translate(s.mem, r, g)
    ensures Translate(Step(s, frames, k, op).mem, r, g) == NextView(v, r, g, op)
  {
    StepKeeps(s, frames, k, op);
    hide Translate, Sound, Table, Parent, WithTable, PutEntry, WithRoot, ZeroPage, Mapped, Fresh;
  }

  /** Over any run, the lower half of every live map is a map of its own: its last write, or nothing if it was made
      since, or what it was at the start. */
  lemma {:induction false} LowerHalfRefines(s: World, frames: nat, k: nat, ops: seq<Op>, r: nat, g: Page, v: Option<nat>)
    requires Sound(s, frames, k) && AllPossible(s, frames, k, ops) && g.Valid() && g.Lower()
    requires r in s.roots ==> v == Translate(s.mem, r, g)
    requires r in After(s, frames, k, ops).roots
    ensures Translate(After(s, frames, k, ops).mem, r, g) == View(v, r, g, ops)
    decreases |ops|
  {
    hide Sound, Step, Possible, Translate, NextView;
    if ops != [] {
      var t := Step(s, frames, k, ops[0]);
      StepKeeps(s, frames, k, ops[0]);
      if r in t.roots {
        StepView(s, frames, k, ops[0], r, g, v);
      }
      LowerHalfRefines(t, frames, k, ops[1..], r, g, NextView(v, r, g, ops[0]));
    }
  }

  /** No operation of the run writes a page of the map, or drops it. Links under it are allowed. */
  predicate Spares(ops: seq<Op>, victim: nat) {
    forall i :: 0 <= i < |ops| ==> !(ops[i].Leaf? && ops[i].root == victim) && ops[i] != Drop(victim)
  }

  lemma {:induction false} SparedView(v: Option<nat>, victim: nat, g: Page, ops: seq<Op>)
    requires Spares(ops, victim) && forall i :: 0 <= i < |ops| ==> ops[i] != Make(victim)
    ensures View(v, victim, g, ops) == v
    decreases |ops|
  {
    if ops != [] {
      SparedView(v, victim, g, ops[1..]);
    }
  }

  /** A live map is never made again, and stays live until it is dropped. */
  lemma {:induction false} StaysLive(s: World, frames: nat, k: nat, ops: seq<Op>, victim: nat)
    requires AllPossible(s, frames, k, ops) && victim in s.roots && Spares(ops, victim)
    ensures victim in After(s, frames, k, ops).roots && forall i :: 0 <= i < |ops| ==> ops[i] != Make(victim)
    decreases |ops|
  {
    if ops != [] {
      var t := Step(s, frames, k, ops[0]);
      assert ops[0] != Make(victim) && victim in t.roots;
      StaysLive(t, frames, k, ops[1..], victim);
    }
    hide Step, Possible;
  }

  /** Whatever sequence of operations is done with other maps, a map keeps every translation of its lower half. */
  lemma Isolation(s: World, frames: nat, k: nat, ops: seq<Op>, victim: nat, g: Page)
    requires Sound(s, frames, k) && AllPossible(s, frames, k, ops) && victim in s.roots && Spares(ops, victim)
    requires g.Valid() && g.Lower()
    ensures victim in After(s, frames, k, ops).roots
    ensures Translate(After(s, frames, k, ops).mem, victim, g) == Translate(s.mem, victim, g)
  {
    hide *;
    var v := Translate(s.mem, victim, g);
    StaysLive(s, frames, k, ops, victim);
    LowerHalfRefines(s, frames, k, ops, victim, g, v);
    SparedView(v, victim, g, ops);
  }

  /** In particular what is done within one map. */
  lemma OthersKept(s: World, t: World, frames: nat, k: nat, root: nat, victim: nat, g: Page)
    requires Sound(s, frames, k) && Reaches(s, t, frames, k, root) && victim in s.roots && victim != root
    requires g.Valid() && g.Lower()
    ensures victim in t.roots && Translate(t.mem, victim, g) == Translate(s.mem, victim, g)
  {
    hide Sound, AllPossible, After, Translate;
    var ops :| Within(ops, root) && AllPossible(s, frames, k, ops) && After(s, frames, k, ops) == t;
    assert Spares(ops, victim);
    Isolation(s, frames, k, ops, victim, g);
  }

  // ---- The upper half

  /** An entry of a root changes only when a table is linked there. */
  lemma StepEntry(s: World, frames: nat, k: nat, op: Op, r: nat, e: nat)
    requires Sound(s, frames, k) && Possible(s, frames, k, op) && e < ENTRIES
    requires r in s.roots && op != Drop(r)
    ensures r in Step(s, frames, k, op).roots
    ensures At(Step(s, frames, k, op).mem, r, e) ==
      if op.Link? && op.root == r && op.x == P3(e) then op.q * 0x1000 + 3 else At(s.mem, r, e)
  {
    hide Translate, At;
    match op
    case Link(root, x, q) =>
      Walks(s.mem, frames, s.roots, s.places, root, x);
      WithTableAt(s.mem, frames, Parent(s.mem, root, x).value, Last(x), q);
    case Leaf(root, g, w) =>
      Walks(s.mem, frames, s.roots, s.places, root, Path1(g));
    case Make(q) => WithRootAt(s.mem, frames, k, q);
    case Drop(q) =>
  }

  /** The operation links a table in entry `e` of the root of one of two maps. */
  predicate LinksAt(op: Op, r: nat, k: nat, e: nat) {
    op.Link? && (op.root == r || op.root == k) && op.x == P3(e)
  }

  /** Two maps that agree in an entry disagree in it from the first link there on, since the new table is no other
      map's. */
  lemma StepAgreement(s: World, frames: nat, k: nat, op: Op, r: nat, e: nat)
    requires Sound(s, frames, k) && Possible(s, frames, k, op) && e < ENTRIES
    requires r in s.roots && r != k && op != Drop(r)
    ensures r in Step(s, frames, k, op).roots
    ensures var mem := Step(s, frames, k, op).mem;
      At(mem, r, e) == At(mem, k, e) <==> At(s.mem, r, e) == At(s.mem, k, e) && !LinksAt(op, r, k, e)
  {
    StepEntry(s, frames, k, op, r, e);
    StepEntry(s, frames, k, op, k, e);
    hide Step, At;
    if LinksAt(op, r, k, e) {
      NewTable(s, frames, k, op, r, e);
      NewTable(s, frames, k, op, k, e);
    }
  }

  /** No entry of a root leads to a fresh page, and a link needs an absent entry. */
  lemma NewTable(s: World, frames: nat, k: nat, op: Op, r: nat, e: nat)
    requires Sound(s, frames, k) && Possible(s, frames, k, op) && op.Link? && r in s.roots && e < ENTRIES
    ensures At(s.mem, r, e) != op.q * 0x1000 + 3
  {
    hide At, Target, Present, Table, Parent;
    assert Leads(s.mem, s.places, r, e, Pml3(Owner(r, e), e));
    LinkWord(op.q);
  }

  /** Two maps that agree in an entry of their roots still do after a run exactly when no table was linked there. */
  lemma {:induction false} Agreement(s: World, frames: nat, k: nat, ops: seq<Op>, r: nat, e: nat)
    requires Sound(s, frames, k) && AllPossible(s, frames, k, ops) && e < ENTRIES
    requires r in s.roots && r != k && forall i :: 0 <= i < |ops| ==> ops[i] != Drop(r)
    ensures r in After(s, frames, k, ops).roots
    ensures var mem := After(s, frames, k, ops).mem;
      At(mem, r, e) == At(mem, k, e)
      <==> At(s.mem, r, e) == At(s.mem, k, e) && forall i :: 0 <= i < |ops| ==> !LinksAt(ops[i], r, k, e)
    decreases |ops|
  {
    hide Sound, Possible, Step, At, LinksAt;
    if ops != [] {
      var t := Step(s, frames, k, ops[0]);
      StepKeeps(s, frames, k, ops[0]);
      StepAgreement(s, frames, k, ops[0], r, e);
      Agreement(t, frames, k, ops[1..], r, e);
      assert forall i :: 0 < i < |ops| ==> ops[i] == ops[1..][i - 1];
    }
  }

  /** Below an entry in which two maps agree they translate alike. */
  lemma EntryDecides(mem: seq<nat>, r: nat, k: nat, g: Page)
    requires At(mem, r, g.e4) == At(mem, k, g.e4)
    ensures Translate(mem, r, g) == Translate(mem, k, g)
  {
  }

  /** A map agrees with the kernel map on an entry of the upper half from its making up to the first table that is
      linked in that entry of either, and exactly that long. */
  lemma UpperHalfShared(s: World, frames: nat, k: nat, q: nat, ops: seq<Op>, e: nat)
    requires Sound(s, frames, k) && Possible(s, frames, k, Make(q)) && 256 <= e < ENTRIES
    requires AllPossible(Step(s, frames, k, Make(q)), frames, k, ops) && forall i :: 0 <= i < |ops| ==> ops[i] != Drop(q)
    ensures var mem := After(Step(s, frames, k, Make(q)), frames, k, ops).mem;
      && (At(mem, q, e) == At(mem, k, e) <==> forall i :: 0 <= i < |ops| ==> !LinksAt(ops[i], q, k, e))
      && (At(mem, q, e) == At(mem, k, e) ==> forall g: Page :: g.e4 == e ==> Translate(mem, q, g) == Translate(mem, k, g))
  {
    var t := Step(s, frames, k, Make(q));
    WithRootAt(s.mem, frames, k, q);
    assert At(t.mem, q, e) == At(t.mem, k, e) && q in t.roots && q != k;
    hide *;
    StepKeeps(s, frames, k, Make(q));
    Agreement(t, frames, k, ops, q, e);
    var mem := After(t, frames, k, ops).mem;
    forall g: Page | g.e4 == e && At(mem, q, e) == At(mem, k, e)
      ensures Translate(mem, q, g) == Translate(mem, k, g)
    {
      EntryDecides(mem, q, k, g);
    }
  }
}
