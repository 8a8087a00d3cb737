/**
 The round-robin scheduler (`src/sched/sched.c`), one step at a time.

 A task is named by the address of its record. The lists of the source hold these addresses; a record that
 has been freed is no longer in `tasks`.
 */
module Scheduler {
  import opened Words
  import Arithmetic

  const MAX_TASK: nat := 16

  type Registers = seq<u64>

  datatype Task = Task(regs: Registers, pageMap: nat, dead: bool)

  datatype State = State(list: seq<nat>, tasks: map<nat, Task>, cid: nat, current: Option<nat>, loaded: Option<nat>) {
    predicate IsDead(k: nat)
      requires k < |list|
    {
      list[k] in tasks && tasks[list[k]].dead
    }

    /** What an interrupt needs: a task at the scan position, and records for all listed tasks. */
    ghost predicate Ready() {
      1 <= |list| && cid < |list| && Listed(list, tasks) && (current.Some? ==> current.value in tasks)
    }

    /** What holds between two steps, once there is a task and as long as the first one lives. */
    ghost predicate Valid() {
      && 1 <= |list| < MAX_TASK && cid < |list|
      && Listed(list, tasks) && Separate(tasks)
      && !IsDead(0) && !IsDead(cid)
      && (current.Some? ==> current.value in tasks && loaded == Some(tasks[current.value].pageMap))
      && (current == Some(list[cid]) ==> cid == 0)
    }
  }

  /** The list names every task once. */
  ghost predicate Listed(list: seq<nat>, tasks: map<nat, Task>) {
    && (forall i, j :: 0 <= i < j < |list| ==> list[i] != list[j])
    && (forall i :: 0 <= i < |list| ==> list[i] in tasks)
    && (forall h :: h in tasks ==> h in list)
  }

  /** No two tasks share a page map. */
  ghost predicate Separate(tasks: map<nat, Task>) {
    forall h, h' :: h in tasks && h' in tasks && h != h' ==> tasks[h].pageMap != tasks[h'].pageMap
  }

  /** `sched_create_new_task`. */
  function Create(s: State, h: nat, task: Task): State {
    s.(list := s.list + [h], tasks := s.tasks[h := task])
  }

  /** The running task dies. */
  function Kill(s: State): State
    requires s.current.Some? && s.current.value in s.tasks
  {
    s.(tasks := s.tasks[s.current.value := s.tasks[s.current.value].(dead := true)])
  }

  /** `sched_remove_task`. */
  function Remove(s: State, k: nat): State
    requires k < |s.list|
  {
    s.(list := s.list[..k] + s.list[k + 1..], tasks := s.tasks - {s.list[k]})
  }

  /** The registers of the interrupted task are saved. */
  function Save(s: State, regs: Registers): State
    requires s.current.Some? ==> s.current.value in s.tasks
  {
    if s.current.Some? then s.(tasks := s.tasks[s.current.value := s.tasks[s.current.value].(regs := regs)]) else s
  }

  /** The task at the scan position is dispatched. */
  function Dispatch(s: State): State
    requires s.cid < |s.list| && s.list[s.cid] in s.tasks
  {
    var h := s.list[s.cid];
    s.(current := Some(h), loaded := Some(s.tasks[h].pageMap), cid := if s.cid + 1 == |s.list| then 0 else s.cid + 1)
  }

  /** A dead task at the scan position is removed. */
  function Reap(s: State): State
    requires s.cid < |s.list|
  {
    if s.IsDead(s.cid) then Remove(s, s.cid).(cid := 0) else s
  }

  /** `sched_switch`: the new state; the registers loaded are those of its current task. */
  function Switch(s: State, regs: Registers): State
    requires s.Ready()
  {
    Reap(Dispatch(Save(s, regs)))
  }

  /** The registers that a switch loads. */
  function Resumed(s: State, regs: Registers): Registers
    requires s.Valid()
  {
    Save(s, regs).tasks[s.list[s.cid]].regs
  }

  lemma SaveKeeps(s: State, regs: Registers)
    requires s.Valid()
    ensures Save(s, regs).Valid()
    ensures forall i :: 0 <= i < |s.list| ==> (Save(s, regs).IsDead(i) <==> s.IsDead(i))
  {
  }

  /** Never dispatches a dead task, never frees the running one or its loaded page map. */
  lemma SwitchSafe(s: State, regs: Registers)
    requires s.Valid()
    ensures Switch(s, regs).Valid()
    ensures Switch(s, regs).current == Some(s.list[s.cid]) && !s.IsDead(s.cid)
    ensures Resumed(s, regs) == Switch(s, regs).tasks[s.list[s.cid]].regs
    ensures Resumed(s, regs) == if s.current == Some(s.list[s.cid]) then regs else s.tasks[s.list[s.cid]].regs
  {
    SaveKeeps(s, regs);
    var t := Save(s, regs);
    var u := Dispatch(t);
    hide Save;
    if u.IsDead(u.cid) {
      RemoveKeeps(u);
    }
  }

  lemma RemoveListed(list: seq<nat>, tasks: map<nat, Task>, k: nat)
    requires Listed(list, tasks) && k < |list|
    ensures Listed(list[..k] + list[k + 1..], tasks - {list[k]})
  {
    var r := list[..k] + list[k + 1..];
    assert forall i :: 0 <= i < |r| ==> r[i] == list[if i < k then i else i + 1];
    forall h | h in tasks - {list[k]}
      ensures h in r
    {
      var i :| 0 <= i < |list| && list[i] == h;
      assert r[if i < k then i else i - 1] == h;
    }
  }

  lemma RemoveKeeps(u: State)
    requires 1 <= |u.list| < MAX_TASK && Listed(u.list, u.tasks) && Separate(u.tasks)
    requires u.cid < |u.list| && u.IsDead(u.cid) && u.cid != 0 && u.current.Some? && u.current.value != u.list[u.cid]
    requires !u.IsDead(0) && u.current.value in u.tasks && u.loaded == Some(u.tasks[u.current.value].pageMap)
    ensures Remove(u, u.cid).(cid := 0).Valid()
  {
    RemoveListed(u.list, u.tasks, u.cid);
    hide Listed;
    assert (u.list[..u.cid] + u.list[u.cid + 1..])[0] == u.list[0];
  }

  lemma KillKeeps(s: State)
    requires s.Valid() && s.current.Some? && s.current.value != s.list[0]
    ensures Kill(s).Valid()
  {
  }

  lemma AddListed(list: seq<nat>, tasks: map<nat, Task>, h: nat, task: Task)
    requires Listed(list, tasks) && h !in tasks
    ensures Listed(list + [h], tasks[h := task])
  {
    var r := list + [h];
    assert r[|list|] == h && forall i :: 0 <= i < |list| ==> r[i] == list[i];
    forall g | g in tasks[h := task]
      ensures g in r
    {
      if g != h {
        var i :| 0 <= i < |list| && list[i] == g;
        assert r[i] == g;
      }
    }
  }

  lemma CreateKeeps(s: State, h: nat, task: Task)
    requires s.Valid() && |s.list| + 1 < MAX_TASK && h !in s.tasks && !task.dead
    requires forall g :: g in s.tasks ==> s.tasks[g].pageMap != task.pageMap
    ensures Create(s, h, task).Valid()
  {
    AddListed(s.list, s.tasks, h, task);
    assert s.list[0] in s.tasks && s.list[s.cid] in s.tasks;
    hide Listed;
  }

  /** The first task makes the scheduler ready to run, and is the first one to be dispatched. */
  lemma FirstTask(h: nat, task: Task, later: Registers)
    requires !task.dead
    ensures var s := Create(State([], map[], 0, None, None), h, task);
      s.Valid() && s == State([h], map[h := task], 0, None, None) && Resumed(s, later) == task.regs
  {
  }

  // ---- The death of the first task

  /** The next `n` interrupts dispatch live tasks only. */
  ghost predicate Lives(s: State, rs: nat -> Registers, from: nat, n: nat)
    requires s.Ready()
    decreases n
  {
    n == 0 || (!s.IsDead(s.cid) && (SwitchReady(s, rs(from)); Lives(Switch(s, rs(from)), rs, from + 1, n - 1)))
  }

  /** The scan restarts at the first task without looking at it. So either that task lives, or the scan comes round
      to it without a restart, and the one that takes its place lives. */
  ghost predicate Safe(s: State)
    requires s.Ready()
  {
    && !s.IsDead(s.cid)
    && (s.IsDead(0) ==> !s.IsDead(1) && forall k :: s.cid <= k < |s.list| ==> !s.IsDead(k))
  }

  lemma SwitchReady(s: State, regs: Registers)
    requires s.Ready() && !s.IsDead(s.cid)
    ensures Switch(s, regs).Ready()
  {
    var u := Scanned(s, regs);
    hide Save, Dispatch;
    if u.IsDead(u.cid) {
      RemoveListed(u.list, u.tasks, u.cid);
    }
  }

  /** What an interrupt does before it looks for a dead task. */
  lemma Scanned(s: State, regs: Registers) returns (u: State)
    requires s.Ready()
    ensures u == Dispatch(Save(s, regs)) && Switch(s, regs) == Reap(u)
    ensures SameDeaths(s, u) && Listed(u.list, u.tasks)
    ensures u.cid == NextIndex(s.cid, |s.list|) < |s.list| && u.current == Some(s.list[s.cid]) && u.current.value in u.tasks
  {
    u := Dispatch(Save(s, regs));
  }

  /** The state after an interrupt, as far as positions and deaths go. */
  lemma Switched(s: State, regs: Registers)
    requires s.Ready()
    ensures var t, k := Switch(s, regs), NextIndex(s.cid, |s.list|);
      && k < |s.list|
      && (!s.IsDead(k) ==> SameDeaths(s, t) && t.cid == k)
      && (s.IsDead(k) ==>
        && t.list == s.list[..k] + s.list[k + 1..] && t.cid == 0
        && (forall i :: 0 <= i < k ==> (t.IsDead(i) <==> s.IsDead(i)))
        && (forall i :: k <= i < |t.list| ==> (t.IsDead(i) <==> s.IsDead(i + 1))))
  {
    hide *;
    var u := Scanned(s, regs);
    SameDeathsIs(s, u);
    ReapIs(u);
    if s.IsDead(u.cid) {
      RemovedDeaths(u, u.cid);
    }
  }

  lemma ReapIs(u: State)
    requires u.cid < |u.list|
    ensures Reap(u) == if u.IsDead(u.cid) then Remove(u, u.cid).(cid := 0) else u
  {
  }

  lemma SafeKept(s: State, regs: Registers)
    requires s.Ready() && Safe(s)
    ensures Switch(s, regs).Ready() && Safe(Switch(s, regs))
  {
    SwitchReady(s, regs);
    Switched(s, regs);
    hide Switch, Listed, State.IsDead;
  }

  lemma {:induction false} SafeLives(s: State, rs: nat -> Registers, from: nat, n: nat)
    requires s.Ready() && Safe(s)
    ensures Lives(s, rs, from, n)
    decreases n
  {
    if n > 0 {
      SafeKept(s, rs(from));
      SafeLives(Switch(s, rs(from)), rs, from + 1, n - 1);
    }
    hide Switch, State.Ready;
  }

  /** Otherwise the scan has met a dead task or has moved on. */
  lemma UnsafeKept(s: State, regs: Registers)
    requires s.Ready() && !Safe(s) && !s.IsDead(s.cid)
    ensures s.cid < |s.list|
    ensures var t := Switch(s, regs);
      t.Ready() && (t.IsDead(t.cid) || (!Safe(t) && |t.list| == |s.list| && t.cid == s.cid + 1))
  {
    SwitchReady(s, regs);
    Switched(s, regs);
    NextUnsafe(s, Switch(s, regs));
    hide *;
  }

  lemma NextUnsafe(s: State, t: State)
    requires s.Ready() && !Safe(s) && !s.IsDead(s.cid) && t.Ready() && NextIndex(s.cid, |s.list|) < |s.list|
    requires var k := NextIndex(s.cid, |s.list|);
      && (!s.IsDead(k) ==> SameDeaths(s, t) && t.cid == k)
      && (s.IsDead(k) ==>
        && t.list == s.list[..k] + s.list[k + 1..] && t.cid == 0
        && (forall i :: 0 <= i < k ==> (t.IsDead(i) <==> s.IsDead(i)))
        && (forall i :: k <= i < |t.list| ==> (t.IsDead(i) <==> s.IsDead(i + 1))))
    ensures s.cid < |s.list|
    ensures t.IsDead(t.cid) || (!Safe(t) && |t.list| == |s.list| && t.cid == s.cid + 1)
  {
    hide Listed, State.IsDead;
    assert s.IsDead(0);
    if s.cid + 1 < |s.list| {
      if s.IsDead(s.cid + 1) {
        assert t.IsDead(0);
      }
    } else {
      assert s.IsDead(1) && t.IsDead(0);
    }
  }

  /** A dead task is dispatched by the time the scan has come round. */
  lemma {:induction false} UnsafeDies(s: State, rs: nat -> Registers, from: nat) returns (n: nat)
    requires s.Ready() && !Safe(s)
    ensures s.cid < |s.list| && n <= |s.list| + 1 - s.cid && !Lives(s, rs, from, n)
    decreases |s.list| - s.cid
  {
    hide *;
    LivesIs(s, rs, from, 1);
    if s.IsDead(s.cid) {
      n := 1;
    } else {
      UnsafeKept(s, rs(from));
      var t := Switch(s, rs(from));
      if t.IsDead(t.cid) {
        n := 2;
        LivesIs(t, rs, from + 1, 1);
      } else {
        n := UnsafeDies(t, rs, from + 1);
        n := n + 1;
      }
      LivesIs(s, rs, from, n);
    }
  }

  lemma LivesIs(s: State, rs: nat -> Registers, from: nat, n: nat)
    requires s.Ready() && n >= 1
    ensures s.cid < |s.list|
    ensures s.IsDead(s.cid) ==> !Lives(s, rs, from, n)
    ensures !s.IsDead(s.cid) ==> var t := Switch(s, rs(from));
      t.Ready() && t.cid < |t.list| && (Lives(s, rs, from, n) <==> Lives(t, rs, from + 1, n - 1))
  {
    if !s.IsDead(s.cid) {
      SwitchReady(s, rs(from));
    }
    hide Switch;
  }

  /** No interrupt to come dispatches a dead task, exactly when the state is safe. */
  lemma LivesExact(s: State, rs: nat -> Registers, from: nat)
    requires s.Ready()
    ensures (forall n: nat :: Lives(s, rs, from, n)) <==> Safe(s)
  {
    hide Lives, Safe, State.Ready;
    if Safe(s) {
      forall n: nat
        ensures Lives(s, rs, from, n)
      {
        SafeLives(s, rs, from, n);
      }
    } else {
      var n := UnsafeDies(s, rs, from);
    }
  }

  /** After the death of the first task, the next interrupt dispatches it exactly when the scan is at its start.
      No later one dispatches a dead task exactly when the scan is not at its start, reaches the end of the list
      without meeting a dead task, and the second task lives. */
  lemma FirstMustLive(s: State, rs: nat -> Registers, from: nat)
    requires s.Valid() && s.current == Some(s.list[0])
    ensures Kill(s).Ready()
    ensures Kill(s).IsDead(s.cid) <==> s.cid == 0
    ensures (forall n: nat :: Lives(Kill(s), rs, from, n))
      <==> s.cid != 0 && !s.IsDead(1) && forall k :: s.cid <= k < |s.list| ==> !s.IsDead(k)
  {
    var t := Kill(s);
    assert forall k :: 0 <= k < |s.list| ==> (t.IsDead(k) <==> k == 0 || s.IsDead(k));
    LivesExact(t, rs, from);
    hide Lives, State.IsDead, Kill;
  }

  // ---- Runs

  datatype Event = Tick(regs: Registers) | Death | Birth(h: nat, task: Task)

  /** Only the running task can die, and the first one does not; the list stays below its size, because a
      removal reads one slot behind the last task; new records and page maps are fresh. */
  ghost predicate Possible(s: State, e: Event) {
    match e
    case Tick(_) => true
    case Death => s.Valid() && s.current.Some? && s.current.value != s.list[0]
    case Birth(h, task) =>
      && |s.list| + 1 < MAX_TASK && h !in s.tasks && !task.dead
      && (forall g :: g in s.tasks ==> s.tasks[g].pageMap != task.pageMap)
  }

  function After(s: State, e: Event): (r: State)
    requires s.Valid() && Possible(s, e)
    ensures r.Valid()
  {
    match e
    case Tick(regs) => SwitchSafe(s, regs); Switch(s, regs)
    case Death => KillKeeps(s); Kill(s)
    case Birth(h, task) => CreateKeeps(s, h, task); Create(s, h, task)
  }

  ghost predicate AllPossible(s: State, events: seq<Event>)
    requires s.Valid()
    decreases |events|
  {
    events == [] || (Possible(s, events[0]) && AllPossible(After(s, events[0]), events[1..]))
  }

  /** The state after a run: it is valid, so no dead task was dispatched and no running one freed. */
  ghost function Run(s: State, events: seq<Event>): (r: State)
    requires s.Valid() && AllPossible(s, events)
    ensures r.Valid()
    decreases |events|
  {
    if events == [] then s else Run(After(s, events[0]), events[1..])
  }

  /** Throughout a run the task is there and does not run. */
  ghost predicate Idle(s: State, events: seq<Event>, h: nat)
    requires s.Valid() && AllPossible(s, events)
    decreases |events|
  {
    && h in s.tasks && s.current != Some(h)
    && (events == [] || Idle(After(s, events[0]), events[1..], h))
  }

  /** What a birth and a death leave. */
  lemma BirthIs(s: State, h: nat, task: Task)
    requires s.Valid() && Possible(s, Birth(h, task))
    ensures After(s, Birth(h, task)) == s.(list := s.list + [h], tasks := s.tasks[h := task])
    ensures h !in s.list
  {
  }

  lemma DeathIs(s: State)
    requires s.Valid() && Possible(s, Death)
    ensures var h := s.current.value; After(s, Death) == s.(tasks := s.tasks[h := s.tasks[h].(dead := true)])
  {
  }

  lemma StepKeepsRecord(s: State, e: Event, h: nat)
    requires s.Valid() && Possible(s, e) && h in s.tasks && s.current != Some(h) && h in After(s, e).tasks
    ensures After(s, e).tasks[h] == s.tasks[h]
  {
  }

  lemma {:induction false} IdleKeepsRecord(s: State, events: seq<Event>, h: nat)
    requires s.Valid() && AllPossible(s, events) && Idle(s, events, h)
    ensures h in Run(s, events).tasks && Run(s, events).tasks[h] == s.tasks[h]
    decreases |events|
  {
    if events != [] {
      StepKeepsRecord(s, events[0], h);
      IdleKeepsRecord(After(s, events[0]), events[1..], h);
    }
    hide After;
  }

  /** The interrupt that dispatches a task that has been idle loads the registers and the page map of its record. */
  lemma IdleThenDispatched(s: State, events: seq<Event>, h: nat, later: Registers)
    requires s.Valid() && AllPossible(s, events) && Idle(s, events, h)
    requires var u := Run(s, events); u.list[u.cid] == h
    ensures var u := Run(s, events);
      && h in s.tasks && Resumed(u, later) == s.tasks[h].regs
      && After(u, Tick(later)).current == Some(h) && After(u, Tick(later)).loaded == Some(s.tasks[h].pageMap)
  {
    IdleKeepsRecord(s, events, h);
    StillIdle(s, events, h);
    var u := Run(s, events);
    hide After, Run;
    SwitchSafe(u, later);
    TickLoads(u, later);
  }

  lemma TickLoads(u: State, later: Registers)
    requires u.Valid()
    ensures var h := u.list[u.cid]; h in u.tasks && After(u, Tick(later)).current == Some(h) && After(u, Tick(later)).loaded == Some(u.tasks[h].pageMap)
  {
  }

  /** A new task goes behind all other ones, and starts with the registers and the page map it was made with, whatever
      happened since. */
  lemma StartsAsMade(s: State, h: nat, task: Task, events: seq<Event>, later: Registers)
    requires s.Valid() && Possible(s, Birth(h, task))
    requires var t := After(s, Birth(h, task)); AllPossible(t, events) && Idle(t, events, h)
    requires var u := Run(After(s, Birth(h, task)), events); u.list[u.cid] == h
    ensures var u := Run(After(s, Birth(h, task)), events);
      Resumed(u, later) == task.regs && After(u, Tick(later)).current == Some(h) && After(u, Tick(later)).loaded == Some(task.pageMap)
  {
    hide *;
    BirthIs(s, h, task);
    IdleThenDispatched(After(s, Birth(h, task)), events, h, later);
  }

  /** A task is resumed with the registers it had when it was last interrupted, whatever happened since. */
  lemma Resumes(s: State, regs: Registers, events: seq<Event>, h: nat, later: Registers)
    requires s.Valid() && s.current == Some(h)
    requires var t := After(s, Tick(regs)); AllPossible(t, events) && Idle(t, events, h)
    requires var u := Run(After(s, Tick(regs)), events); u.list[u.cid] == h
    ensures Resumed(Run(After(s, Tick(regs)), events), later) == regs
  {
    var t := After(s, Tick(regs));
    assert t.tasks[h].regs == regs;
    IdleKeepsRecord(t, events, h);
    var u := Run(t, events);
    StillIdle(t, events, h);
    SwitchSafe(u, later);
    hide After, Run, Resumed;
  }

  lemma {:induction false} StillIdle(s: State, events: seq<Event>, h: nat)
    requires s.Valid() && AllPossible(s, events) && Idle(s, events, h)
    ensures Run(s, events).current != Some(h)
    decreases |events|
  {
    if events != [] {
      StillIdle(After(s, events[0]), events[1..], h);
    }
    hide After;
  }

  // ---- Fairness and reaping

  /** One interrupt. */
  function Ticked(s: State, regs: Registers): (r: State)
    requires s.Valid()
    ensures r.Valid()
  {
    After(s, Tick(regs))
  }

  /** The state after `n` interrupts whose registers start at `from`. */
  function Ticks(s: State, rs: nat -> Registers, from: nat, n: nat): (r: State)
    requires s.Valid()
    ensures r.Valid()
    decreases n
  {
    if n == 0 then s else Ticks(Ticked(s, rs(from)), rs, from + 1, n - 1)
  }

  function NextIndex(c: nat, n: nat): nat {
    if c + 1 == n then 0 else c + 1
  }

  ghost predicate SameDeaths(s: State, t: State) {
    s.list == t.list && forall i :: 0 <= i < |s.list| ==> (s.IsDead(i) <==> t.IsDead(i))
  }

  /** What an interrupt does before it looks for a dead task. */
  lemma Dispatched(s: State, regs: Registers) returns (u: State)
    requires s.Valid()
    ensures u == Dispatch(Save(s, regs)) && 1 <= |s.list| && s.cid < |s.list|
    ensures SameDeaths(s, u) && Listed(u.list, u.tasks)
    ensures u.cid == NextIndex(s.cid, |s.list|) < |s.list| && u.current == Some(s.list[s.cid])
    ensures Ticked(s, regs) == if s.IsDead(u.cid) then Remove(u, u.cid).(cid := 0) else u
  {
    SaveKeeps(s, regs);
    u := Dispatch(Save(s, regs));
    hide Save, Remove;
  }

  /** An interrupt dispatches the task at the scan position; when the next one is alive, only the position moves. */
  lemma TickAlive(s: State, regs: Registers)
    requires s.Valid()
    ensures 1 <= |s.list| && s.cid < |s.list| && NextIndex(s.cid, |s.list|) < |s.list|
    ensures var t := Ticked(s, regs);
      !s.IsDead(NextIndex(s.cid, |s.list|)) ==>
        SameDeaths(s, t) && t.cid == NextIndex(s.cid, |s.list|) && t.current == Some(s.list[s.cid])
  {
    hide *;
    var u := Dispatched(s, regs);
  }

  /** When the next one is dead, it is removed, and the scan starts over. */
  lemma TickDead(s: State, regs: Registers)
    requires s.Valid() && NextIndex(s.cid, |s.list|) < |s.list| && s.IsDead(NextIndex(s.cid, |s.list|))
    ensures var t, k := Ticked(s, regs), NextIndex(s.cid, |s.list|);
      && t.list == s.list[..k] + s.list[k + 1..] && t.cid == 0
      && (forall i :: 0 <= i < k ==> (t.IsDead(i) <==> s.IsDead(i)))
      && (forall i :: k <= i < |t.list| ==> (t.IsDead(i) <==> s.IsDead(i + 1)))
  {
    hide *;
    var u := Dispatched(s, regs);
    SameDeathsIs(s, u);
    RemovedDeaths(u, NextIndex(s.cid, |s.list|));
  }

  lemma RemovedDeaths(u: State, k: nat)
    requires k < |u.list| && Listed(u.list, u.tasks)
    ensures var t := Remove(u, k).(cid := 0);
      && t.list == u.list[..k] + u.list[k + 1..] && t.cid == 0
      && (forall i :: 0 <= i < k ==> (t.IsDead(i) <==> u.IsDead(i)))
      && (forall i :: k <= i < |t.list| ==> (t.IsDead(i) <==> u.IsDead(i + 1)))
  {
  }

  /** While no task is dead, the tasks are dispatched in the order of the list, over and over. */
  lemma {:induction false} RoundRobin(s: State, rs: nat -> Registers, from: nat, n: nat)
    requires s.Valid() && forall i :: 0 <= i < |s.list| ==> !s.IsDead(i)
    ensures |s.list| >= 1
    ensures var t := Ticks(s, rs, from, n);
      && SameDeaths(s, t) && t.cid == (s.cid + n) % |s.list|
      && (n > 0 ==> t.current == Some(s.list[(s.cid + n - 1) % |s.list|]))
    decreases n
  {
    hide *;
    TickAlive(s, rs(from));
    TicksIs(s, rs, from, n);
    SmallMod(s.cid, |s.list|);
    if n > 0 {
      var t := Ticked(s, rs(from));
      SameDeathsIs(s, t);
      RoundRobin(t, rs, from + 1, n - 1);
      SameDeathsIs(s, Ticks(t, rs, from + 1, n - 1));
      ShiftMod(s.cid, |s.list|, n - 1);
      if n > 1 {
        ShiftMod(s.cid, |s.list|, n - 2);
      } else {
        TicksIs(t, rs, from + 1, 0);
      }
    }
  }

  lemma TicksIs(s: State, rs: nat -> Registers, from: nat, n: nat)
    requires s.Valid()
    ensures Ticks(s, rs, from, n) == if n == 0 then s else Ticks(Ticked(s, rs(from)), rs, from + 1, n - 1)
    ensures SameDeaths(s, s)
  {
  }

  lemma SameDeathsIs(s: State, t: State)
    ensures SameDeaths(s, t) ==> s.list == t.list && forall i :: 0 <= i < |s.list| ==> (s.IsDead(i) <==> t.IsDead(i))
    ensures forall u :: SameDeaths(s, u) && SameDeaths(u, t) ==> SameDeaths(s, t)
  {
  }

  lemma ShiftMod(c: nat, n: nat, k: nat)
    requires c < n
    ensures (NextIndex(c, n) + k) % n == (c + k + 1) % n
  {
    if c + 1 == n {
      var q, r := k / n, k % n;
      assert c + k + 1 == q * n + n + r;
      Arithmetic.Distribute(q, 1, n);
      Arithmetic.DivMod(q, n, r);
      Arithmetic.DivMod(q + 1, n, r);
    }
  }

  lemma SmallMod(c: nat, n: nat)
    requires c < n
    ensures c % n == c
  {
  }

  /** The number of dead tasks from index `i` on. */
  function Deaths(s: State, i: nat): (d: nat)
    requires i <= |s.list|
    ensures d <= |s.list| - i
    ensures d == 0 <==> forall k :: i <= k < |s.list| ==> !s.IsDead(k)
    decreases |s.list| - i
  {
    if i == |s.list| then 0 else (if s.IsDead(i) then 1 else 0) + Deaths(s, i + 1)
  }

  /** The live tasks of the list from index `i` on, in order. */
  function Alive(s: State, i: nat): seq<nat>
    requires i <= |s.list|
    decreases |s.list| - i
  {
    if i == |s.list| then [] else (if s.IsDead(i) then [] else [s.list[i]]) + Alive(s, i + 1)
  }

  lemma {:induction false} AllAlive(s: State, i: nat)
    requires i <= |s.list| && Deaths(s, i) == 0
    ensures Alive(s, i) == s.list[i..]
    decreases |s.list| - i
  {
    if i < |s.list| {
      AllAlive(s, i + 1);
    }
  }

  lemma {:induction false} SameDeathsCount(s: State, t: State, i: nat)
    requires SameDeaths(s, t) && i <= |s.list|
    ensures Deaths(t, i) == Deaths(s, i) && Alive(t, i) == Alive(s, i)
    decreases |s.list| - i
  {
    if i < |s.list| {
      SameDeathsCount(s, t, i + 1);
    }
  }

  lemma {:induction false} RemovedCount(s: State, t: State, k: nat, i: nat)
    requires k < |s.list| && t.list == s.list[..k] + s.list[k + 1..] && i <= |t.list|
    requires forall j :: 0 <= j < k ==> (t.IsDead(j) <==> s.IsDead(j))
    requires forall j :: k <= j < |t.list| ==> (t.IsDead(j) <==> s.IsDead(j + 1))
    requires s.IsDead(k)
    ensures i <= k ==> Deaths(t, i) + 1 == Deaths(s, i) && Alive(t, i) == Alive(s, i)
    ensures i >= k ==> Deaths(t, i) == Deaths(s, i + 1) && Alive(t, i) == Alive(s, i + 1)
    decreases |t.list| - i
  {
    if i < |t.list| {
      RemovedCount(s, t, k, i + 1);
    }
  }

  /** The index `m` places behind the scan position, round the list once at most. */
  function Ahead(s: State, m: nat): nat
    requires m <= |s.list|
  {
    if s.cid + m < |s.list| then s.cid + m else s.cid + m - |s.list|
  }

  /** The next dead task is removed when the scan has come up to it, and not before. */
  lemma {:induction false} ReapNext(s: State, rs: nat -> Registers, from: nat, m: nat)
    requires s.Valid() && 1 <= m <= |s.list| && Ahead(s, m) < |s.list| && s.IsDead(Ahead(s, m))
    requires forall j :: 1 <= j < m ==> Ahead(s, j) < |s.list| && !s.IsDead(Ahead(s, j))
    ensures var t := Ticks(s, rs, from, m);
      && t.list == s.list[..Ahead(s, m)] + s.list[Ahead(s, m) + 1..] && t.cid == 0
      && Deaths(t, 0) + 1 == Deaths(s, 0) && Alive(t, 0) == Alive(s, 0)
    decreases m
  {
    hide *;
    var t := Ticked(s, rs(from));
    TickAlive(s, rs(from));
    TicksIs(s, rs, from, m);
    AheadIs(s);
    if m == 1 {
      TickDead(s, rs(from));
      TicksIs(t, rs, from + 1, 0);
      RemovedCount(s, t, Ahead(s, 1), 0);
    } else {
      AheadNext(s, t, m);
      SameDeathsIs(s, t);
      ReapNext(t, rs, from + 1, m - 1);
      SameDeathsCount(s, t, 0);
    }
  }

  lemma AheadIs(s: State)
    requires s.Valid()
    ensures |s.list| >= 1 && Ahead(s, 1) == NextIndex(s.cid, |s.list|) < |s.list|
    ensures forall m :: 0 <= m <= |s.list| ==> Ahead(s, m) < |s.list|
  {
  }

  lemma AheadNext(s: State, t: State, m: nat)
    requires s.Valid() && t.Valid() && SameDeaths(s, t) && t.cid == NextIndex(s.cid, |s.list|) && 2 <= m <= |s.list|
    ensures forall j :: 1 <= j <= m - 1 ==> Ahead(t, j) == Ahead(s, j + 1)
    ensures Ahead(t, m - 1) == Ahead(s, m) < |s.list| == |t.list|
  {
  }

  /** The distance to the next dead task. */
  lemma NextDeath(s: State) returns (m: nat)
    requires s.Valid() && Deaths(s, 0) > 0
    ensures 1 <= m < |s.list| && Ahead(s, m) < |s.list| && s.IsDead(Ahead(s, m))
    ensures forall j :: 1 <= j < m ==> Ahead(s, j) < |s.list| && !s.IsDead(Ahead(s, j))
  {
    var k :| 0 <= k < |s.list| && s.IsDead(k);
    m := LeastDeath(s, if k > s.cid then k - s.cid else k + |s.list| - s.cid);
  }

  lemma {:induction false} LeastDeath(s: State, m0: nat) returns (m: nat)
    requires s.Valid() && 1 <= m0 < |s.list| && s.IsDead(Ahead(s, m0))
    ensures 1 <= m <= m0 && s.IsDead(Ahead(s, m))
    ensures forall j :: 1 <= j < m ==> !s.IsDead(Ahead(s, j))
    decreases m0
  {
    if j :| 1 <= j < m0 && s.IsDead(Ahead(s, j)) {
      m := LeastDeath(s, j);
    } else {
      m := m0;
    }
  }

  lemma {:induction false} TicksAdd(s: State, rs: nat -> Registers, from: nat, a: nat, b: nat)
    requires s.Valid()
    ensures Ticks(s, rs, from, a + b) == Ticks(Ticks(s, rs, from, a), rs, from + a, b)
    decreases a
  {
    hide *;
    TicksIs(s, rs, from, a);
    TicksIs(s, rs, from, a + b);
    if a > 0 {
      TicksAdd(Ticked(s, rs(from)), rs, from + 1, a - 1, b);
    }
  }

  lemma Within(d: nat, n: nat, m: nat, rest: nat)
    requires m <= n && rest <= d * (n - 1) && n >= 1
    ensures m + rest <= (d + 1) * n
  {
    assert d * (n - 1) <= d * n;
    Arithmetic.Distribute(d, 1, n);
  }

  /** If no more tasks die, every dead one is gone within as many interrupts as there are dead tasks times
      tasks, and the others are left in order. */
  lemma {:induction false} AllReaped(s: State, rs: nat -> Registers, from: nat) returns (n: nat)
    requires s.Valid()
    ensures n <= Deaths(s, 0) * |s.list|
    ensures Ticks(s, rs, from, n).list == Alive(s, 0) && Deaths(Ticks(s, rs, from, n), 0) == 0
    decreases Deaths(s, 0)
  {
    hide *;
    TicksIs(s, rs, from, 0);
    if Deaths(s, 0) == 0 {
      n := 0;
      AllAlive(s, 0);
    } else {
      var m := NextDeath(s);
      ReapNext(s, rs, from, m);
      var t := Ticks(s, rs, from, m);
      var rest := AllReaped(t, rs, from + m);
      n := m + rest;
      TicksAdd(s, rs, from, m, rest);
      Within(Deaths(t, 0), |s.list|, m, rest);
    }
  }

  // ---- The scheduler in place

  /** The slots that the shift of a removal reads, in order. */
  function ShiftReads(id: nat, tid: nat): seq<nat>
    requires id <= tid
  {
    seq(tid - id, j requires j >= 0 => id + j + 1)
  }

  ghost predicate InList(slots: seq<nat>) {
    forall j :: 0 <= j < |slots| ==> slots[j] < MAX_TASK
  }

  /** A removal reads up to the slot behind the last task, so it stays inside the list exactly when that is not full. */
  lemma RemovalInBounds(id: nat, tid: nat)
    requires id < tid
    ensures var slots := ShiftReads(id, tid); slots[|slots| - 1] == tid && (InList(slots) <==> tid < MAX_TASK)
  {
    var slots := ShiftReads(id, tid);
    assert slots[tid - id - 1] == tid;
  }

  /** Slot `j` after the slots from `id` up to `i` have been overwritten. */
  function Shifted(before: seq<nat>, id: nat, i: nat, j: nat): nat
    requires j < |before|
  {
    if id <= j < i && j + 1 < |before| then before[j + 1] else before[j]
  }

  lemma ShiftedDown(before: seq<nat>, after: seq<nat>, id: nat, tid: nat)
    requires id < tid < |before| == |after|
    requires forall j :: 0 <= j < |after| ==> after[j] == Shifted(before, id, tid, j)
    ensures after[..tid - 1] == before[..tid][..id] + before[..tid][id + 1..]
  {
  }

  class Sched {
    /** `sched_list`; entries from `tid` on do not count. */
    const list: array<nat>
    var tid: nat
    var cid: nat
    var currentTask: Option<nat>
    var loaded: Option<nat>
    /** The task records. */
    var tasks: map<nat, Task>

    ghost predicate Sized()
      reads this
    {
      list.Length == MAX_TASK && tid <= MAX_TASK
    }

    ghost function Abs(): State
      requires Sized()
      reads this, list
    {
      State(list[..tid], tasks, cid, currentTask, loaded)
    }

    constructor ()
      ensures Sized() && tid == 0 && cid == 0 && currentTask == None && tasks == map[] && fresh(list)
    {
      list := new nat[MAX_TASK](_ => 0);
      tid, cid, currentTask, loaded, tasks := 0, 0, None, None, map[];
    }

    /** `sched_create_new_task`: the record and its page map are fresh. */
    method CreateNewTask(h: nat, task: Task) returns (id: nat)
      requires Sized() && tid < MAX_TASK
      modifies this`tid, this`tasks, list
      ensures Sized() && Abs() == Create(old(Abs()), h, task) && id == old(tid)
    {
      tasks := tasks[h := task];
      list[tid] := h;
      tid := tid + 1;
      return tid - 1;
    }

    /** `sched_kill`. */
    method KillCurrent()
      requires Sized() && currentTask.Some? && currentTask.value in tasks
      modifies this`tasks
      ensures Sized() && Abs() == Kill(old(Abs()))
    {
      tasks := tasks[currentTask.value := tasks[currentTask.value].(dead := true)];
    }

    /** `sched_remove_task`: the record is freed and the rest of the list moves down. */
    method RemoveTask(id: nat)
      requires Sized() && id < tid && InList(ShiftReads(id, tid))
      modifies this`tid, this`tasks, list
      ensures Sized() && Abs() == Remove(old(Abs()), id)
    {
      RemovalInBounds(id, tid);
      hide ShiftReads, InList;
      ghost var before := list[..];
      tasks := tasks - {list[id]};
      var i := id;
      while i < tid
        invariant id <= i <= tid && tid == old(tid) && tasks == old(tasks) - {before[id]}
        invariant forall j :: 0 <= j < MAX_TASK ==> list[j] == Shifted(before, id, i, j)
      {
        list[i] := list[i + 1];
        i := i + 1;
      }
      ShiftedDown(before, list[..], id, tid);
      tid := tid - 1;
    }

    method SaveCurrent(frame: Registers)
      requires Sized() && (currentTask.Some? ==> currentTask.value in tasks)
      modifies this`tasks
      ensures Sized() && Abs() == Save(old(Abs()), frame)
    {
      if currentTask.Some? {
        tasks := tasks[currentTask.value := tasks[currentTask.value].(regs := frame)];
      }
    }

    method DispatchNext() returns (regs: Registers)
      requires Sized() && cid < tid && list[cid] in tasks
      modifies this`currentTask, this`loaded, this`cid
      ensures Sized() && Abs() == Dispatch(old(Abs())) && regs == old(tasks[list[cid]].regs)
    {
      currentTask := Some(list[cid]);
      regs := tasks[list[cid]].regs;
      loaded := Some(tasks[list[cid]].pageMap);
      cid := cid + 1;
      if cid == tid {
        cid := 0;
      }
    }

    method ReapDead()
      requires Sized() && cid < tid < MAX_TASK && list[cid] in tasks
      modifies this`tasks, this`tid, this`cid, list
      ensures Sized() && Abs() == Reap(old(Abs()))
    {
      if tasks[list[cid]].dead {
        RemovalInBounds(cid, tid);
        RemoveTask(cid);
        cid := 0;
      }
    }

    /** `sched_switch`: the interrupt frame holds the registers of the task to go on with. */
    method SwitchTask(frame: Registers) returns (regs: Registers)
      requires Sized() && Abs().Valid()
      modifies this, list
      ensures Sized() && Abs() == Switch(old(Abs()), frame) && Abs().Valid()
      ensures regs == Resumed(old(Abs()), frame)
    {
      hide *;
      ghost var s := Abs();
      Parts();
      SwitchSafe(s, frame);
      SwitchParts(s, frame);
      SaveCurrent(frame);
      Parts();
      regs := DispatchNext();
      Parts();
      ReapDead();
    }

    lemma Parts()
      requires Sized()
      ensures Abs().list == list[..tid] && Abs().tasks == tasks && Abs().cid == cid && Abs().current == currentTask
      ensures list.Length == MAX_TASK && tid <= MAX_TASK && |Abs().list| == tid
      ensures forall i :: 0 <= i < tid ==> Abs().list[i] == list[i]
    {
    }
  }

  lemma SwitchParts(s: State, frame: Registers)
    requires s.Valid()
    ensures s.current.Some? ==> s.current.value in s.tasks
    ensures s.cid < |s.list| < MAX_TASK
    ensures var t := Save(s, frame);
      && t.cid == s.cid && t.list == s.list && s.list[s.cid] in t.tasks && Resumed(s, frame) == t.tasks[s.list[s.cid]].regs
      && var u := Dispatch(t);
      && u.cid < |u.list| && u.list == s.list && u.list[u.cid] in u.tasks && Switch(s, frame) == Reap(u)
  {
    SaveKeeps(s, frame);
    hide Save, Reap;
  }
}
