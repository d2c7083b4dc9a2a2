/**
 The scheduler as the kernel runs it: task objects on a doubly linked registry, updated in
 place and searched in a circle. Every operation is tied to SchedulerSpec.
 */
module Scheduler {
  import opened Machine
  import opened SchedulerSpec

  class KernelTask {
    var id: nat
    var process: nat
    var state: TaskState
    var kind: Kind
    var frameOk: bool
    var prev: KernelTask?
    var next: KernelTask?

    constructor (id: nat, process: nat, state: TaskState, kind: Kind, frameOk: bool)
      ensures this.id == id && this.process == process && this.state == state
      ensures this.kind == kind && this.frameOk == frameOk && prev == null && next == null
    {
      this.id, this.process, this.state, this.kind, this.frameOk := id, process, state, kind, frameOk;
      prev, next := null, null;
    }

    function Snapshot(): Task
      reads this`id, this`process, this`state, this`kind, this`frameOk
    {
      Task(id, process, state, kind, frameOk)
    }
  }

  function Snapshots(ts: seq<KernelTask>): (r: seq<Task>)
    reads ts`id, ts`process, ts`state, ts`kind, ts`frameOk
    ensures |r| == |ts| && forall i :: 0 <= i < |ts| ==> r[i] == ts[i].Snapshot()
  {
    if ts == [] then [] else Snapshots(ts[..|ts| - 1]) + [ts[|ts| - 1].Snapshot()]
  }

  ghost predicate Distinct(ts: seq<KernelTask>) {
    forall i, j :: 0 <= i < j < |ts| ==> ts[i] != ts[j]
  }

  /** The object at position `i` of a list, null beyond its ends. */
  ghost function Slot(ts: seq<KernelTask>, i: int): KernelTask? {
    if 0 <= i < |ts| then ts[i] else null
  }

  /** The prev and next pointers spell out `ts`. */
  ghost predicate Links(ts: seq<KernelTask>)
    reads ts`prev, ts`next
  {
    && (forall i {:trigger ts[i].next} :: 0 <= i < |ts| ==> ts[i].next == Slot(ts, i + 1))
    && (forall i {:trigger ts[i].prev} :: 0 <= i < |ts| ==> ts[i].prev == Slot(ts, i - 1))
  }

  function Without(ts: seq<KernelTask>, i: nat): (us: seq<KernelTask>)
    requires i < |ts|
    ensures |us| == |ts| - 1
    ensures forall j :: 0 <= j < |us| ==> us[j] == if j < i then ts[j] else ts[j + 1]
  {
    ts[..i] + ts[i + 1..]
  }

  lemma WithoutKeeps(ts: seq<KernelTask>, i: nat, t: KernelTask)
    requires Distinct(ts) && i < |ts|
    ensures Distinct(Without(ts, i)) && ts[i] !in Without(ts, i)
    ensures t in Without(ts, i) <==> t in ts && t != ts[i]
  {
    var us := Without(ts, i);
    if t in ts && t != ts[i] {
      var j :| 0 <= j < |ts| && ts[j] == t;
      assert us[if j < i then j else j - 1] == t;
    }
  }

  /** The links of all tasks but the one at `i` spell out `ts`, passing over that task. */
  ghost predicate Bypassed(ts: seq<KernelTask>, i: nat)
    reads ts
  {
    && (forall j {:trigger ts[j].next} :: 0 <= j < |ts| && j != i ==>
          ts[j].next == Slot(ts, if j == i - 1 then i + 1 else j + 1))
    && (forall j {:trigger ts[j].prev} :: 0 <= j < |ts| && j != i ==>
          ts[j].prev == Slot(ts, if j == i + 1 then i - 1 else j - 1))
  }

  lemma WithoutLinks(ts: seq<KernelTask>, i: nat)
    requires i < |ts| && Bypassed(ts, i)
    ensures Links(Without(ts, i))
  {
    hide Slot, Bypassed;
    var us := Without(ts, i);
    forall j | 0 <= j < |us| ensures us[j].next == Slot(us, j + 1) && us[j].prev == Slot(us, j - 1) {
      var k := if j < i then j else j + 1;
      assert us[j] == ts[k];
      BypassedAt(ts, i, k);
      SlotWithout(ts, i, j + 1);
      SlotWithout(ts, i, j - 1);
    }
  }

  lemma BypassedAt(ts: seq<KernelTask>, i: nat, k: nat)
    requires i < |ts| && k < |ts| && k != i && Bypassed(ts, i)
    ensures ts[k].next == Slot(ts, if k == i - 1 then i + 1 else k + 1)
    ensures ts[k].prev == Slot(ts, if k == i + 1 then i - 1 else k - 1)
  {
    hide Slot;
  }

  lemma SlotWithout(ts: seq<KernelTask>, i: nat, j: int)
    requires i < |ts|
    ensures Slot(Without(ts, i), j) == Slot(ts, if j < i then j else j + 1)
  {}

  class Scheduler {
    const bootstrap: KernelTask
    var head: KernelTask?
    var tail: KernelTask?
    var current: KernelTask
    var liveCount: nat
    var nextId: nat
    var preemption: bool
    var faults: nat
    var alive: set<nat>
    var active: nat
    var halted: bool
    ghost var registry: seq<KernelTask>

    /** The registry is a proper list with matching links, apart from the bootstrap task. */
    ghost predicate Linked()
      reads this`head, this`tail, this`current, this`liveCount, this`registry, registry`prev, registry`next
    {
      && Distinct(registry) && Links(registry) && bootstrap !in registry
      && head == Slot(registry, 0) && tail == Slot(registry, |registry| - 1)
      && liveCount == |registry|
      && (current == bootstrap || current in registry)
    }

    ghost function State(): Sched
      reads this, registry, bootstrap, current
    {
      Sched(Snapshots(registry), current.id, nextId, bootstrap.state, bootstrap.frameOk,
            preemption, faults, alive, active, halted)
    }

    /** Linked, and the ids tell the tasks apart. */
    ghost predicate Structural()
      reads this, registry, bootstrap, current
    {
      && Linked() && IdsOk(Snapshots(registry), nextId)
      && bootstrap.id == BOOTSTRAP_ID && bootstrap.process == BOOTSTRAP_PROCESS
    }

    ghost predicate Valid()
      reads this, registry, bootstrap, current
    {
      Structural() && Safe(State())
    }

    /** `t` is the task at position `i`, the bootstrap task standing at the end. */
    ghost predicate Names(t: KernelTask, i: nat)
      reads this`registry
    {
      if i < |registry| then t == registry[i] else i == |registry| && t == bootstrap
    }

    lemma CurrentAt(i: nat)
      requires Structural() && Names(current, i)
      ensures At(State()) == i
    {
      assert forall k :: 0 <= k < |registry| ==> State().tasks[k].id != BOOTSTRAP_ID;
      if i < |registry| {
        IndexUnique(State().tasks, nextId, i);
      }
    }

    lemma CurrentNamed()
      requires Structural()
      ensures Names(current, At(State()))
    {
      if current != bootstrap {
        var i :| 0 <= i < |registry| && registry[i] == current;
        CurrentAt(i);
      } else {
        CurrentAt(|registry|);
      }
    }

    constructor ()
      ensures Valid() && State() == INITIAL
      ensures fresh(bootstrap)
    {
      var boot := new KernelTask(BOOTSTRAP_ID, BOOTSTRAP_PROCESS, Running, Cooperative, false);
      bootstrap, current, head, tail, liveCount := boot, boot, null, null, 0;
      nextId, preemption, faults, alive, active, halted := 1, false, 0, {BOOTSTRAP_PROCESS}, BOOTSTRAP_PROCESS, false;
      registry := [];
      new;
      assert State() == INITIAL;
      InitialSafe();
    }

    // -------------------------------------------------------------- registry

    /** task_is_regular. */
    method IsRegular(t: KernelTask) returns (found: bool)
      requires Linked()
      ensures found <==> t in registry
    {
      var cursor := head;
      ghost var k := 0;
      while cursor != null
        invariant k <= |registry| && cursor == Slot(registry, k)
        invariant t !in registry[..k]
        decreases |registry| - k
      {
        if cursor == t {
          return true;
        }
        cursor := cursor.next;
        k := k + 1;
      }
      return false;
    }

    /** task_registry_append of a task that is on no list. */
    method Append(t: KernelTask)
      requires Linked() && t !in registry && t != bootstrap
      modifies this`head, this`tail, this`liveCount, this`registry, registry`next, t`prev, t`next
      ensures Linked() && registry == old(registry) + [t]
    {
      ghost var ts := registry;
      assert ts != [] ==> tail == ts[|ts| - 1] && tail in ts;
      t.prev := tail;
      t.next := null;
      if tail != null {
        tail.next := t;
      } else {
        head := t;
      }
      tail := t;
      liveCount := liveCount + 1;
      registry := ts + [t];
    }

    /** The neighbours of the task at `i` are linked to each other instead. */
    method Unlink(t: KernelTask, ghost i: nat)
      requires Linked() && i < |registry| && t == registry[i]
      modifies this`head, this`tail, registry`prev, registry`next
      ensures Bypassed(registry, i) && t.prev == null && t.next == null
      ensures head == Slot(registry, if i == 0 then 1 else 0)
      ensures tail == Slot(registry, if i == |registry| - 1 then i - 1 else |registry| - 1)
    {
      ghost var ts := registry;
      assert t.prev == Slot(ts, i - 1) && t.next == Slot(ts, i + 1);
      if t.prev != null {
        t.prev.next := t.next;
      } else {
        head := t.next;
      }
      if t.next != null {
        t.next.prev := t.prev;
      } else {
        tail := t.prev;
      }
      t.prev, t.next := null, null;
    }

    /** task_registry_remove of the task at position `i`. */
    method Remove(t: KernelTask, ghost i: nat)
      requires Linked() && i < |registry| && t == registry[i] && t != current
      modifies this`head, this`tail, this`liveCount, this`registry, registry`prev, registry`next
      ensures Linked() && registry == Without(old(registry), i)
      ensures t.prev == null && t.next == null
    {
      hide *;
      ghost var ts := registry;
      LinkedIs();
      Unlink(t, i);
      registry := Without(ts, i);
      if liveCount != 0 {
        liveCount := liveCount - 1;
      }
      RemovedIs(ts, i);
    }

    lemma LinkedIs()
      requires Linked()
      ensures Distinct(registry) && bootstrap !in registry && liveCount == |registry|
      ensures current == bootstrap || current in registry
    {}

    lemma RemovedIs(ts: seq<KernelTask>, i: nat)
      requires i < |ts| && Distinct(ts) && Bypassed(ts, i) && registry == Without(ts, i) && bootstrap !in ts
      requires current != ts[i] && (current == bootstrap || current in ts) && liveCount == |ts| - 1
      requires head == Slot(ts, if i == 0 then 1 else 0)
      requires tail == Slot(ts, if i == |ts| - 1 then i - 1 else |ts| - 1)
      ensures Linked()
    {
      WithoutKeeps(ts, i, current);
      WithoutKeeps(ts, i, bootstrap);
      WithoutLinks(ts, i);
      hide Bypassed, Links, Distinct;
    }

    // ------------------------------------------------------------- selection

    predicate IsEligible(t: KernelTask, kind: Kind)
      reads this, t
    {
      && t.process in alive && t.kind == kind && t.state == Ready
      && (kind == Preemptive ==> t.frameOk)
    }

    /** One step round the circle of registered tasks. */
    function Following(t: KernelTask): KernelTask?
      reads this, t
    {
      if t.next != null then t.next else head
    }

    lemma FollowingIs(c: nat)
      requires Structural() && c < |registry|
      ensures Following(registry[c]) == registry[Next(|registry|, c)]
    {
      assert registry[c].next == Slot(registry, c + 1);
    }

    lemma EligibleIs(c: nat, at: nat, kind: Kind)
      requires Structural() && c < |registry| && Names(current, at)
      ensures IsEligible(registry[c], kind) <==> Eligible(State(), c, kind)
      ensures registry[c] != current <==> c != at
    {
      hide IndexOf, At;
      assert State().tasks[c] == registry[c].Snapshot();
    }

    /** The first task both selectors look at: the one after the current task, else the head. */
    method FirstCandidate() returns (candidate: KernelTask, ghost c: nat)
      requires Structural() && registry != []
      ensures c == if At(State()) < |registry| then Next(|registry|, At(State())) else 0
      ensures candidate == registry[c]
    {
      var regular := IsRegular(current);
      CurrentNamed();
      if current != bootstrap && regular {
        FollowingIs(At(State()));
        candidate, c := Following(current), Next(|registry|, At(State()));
      } else {
        candidate, c := head, 0;
      }
    }

    /** The circular search both selectors make. */
    method Search(start: KernelTask, kind: Kind, ghost at: nat, ghost first: nat) returns (t: KernelTask?)
      requires Structural() && Names(current, at) && |State().tasks| == |registry| == liveCount
      requires first < |registry| && start == registry[first]
      ensures t == Slot(registry, Scan(State(), at, kind, first, |registry|))
    {
      hide *;
      var candidate: KernelTask := start;
      ghost var s, c: nat := State(), first;
      var visited: nat := 0;
      while visited < liveCount
        invariant visited <= liveCount && c < |registry| && candidate == registry[c]
        invariant Scan(s, at, kind, first, liveCount) == Scan(s, at, kind, c, liveCount - visited)
        decreases liveCount - visited
      {
        EligibleIs(c, at, kind);
        ScanStep(s, at, kind, c, liveCount - visited);
        if candidate != current && IsEligible(candidate, kind) {
          SlotAt(registry, c);
          return candidate;
        }
        FollowingIs(c);
        candidate := Following(candidate);
        c := Next(|registry|, c);
        visited := visited + 1;
      }
      ScanEnd(s, at, kind, c);
      SlotAt(registry, |registry|);
      return null;
    }

    /** task_select_next_cooperative and task_select_next_preemptive, from the current task. */
    method SelectNext(kind: Kind) returns (t: KernelTask?)
      requires Structural()
      ensures t == Slot(registry, Select(State(), kind))
    {
      hide *;
      StructuralIs();
      HeadIs();
      CurrentNamed();
      NamedTask(current, At(State()));
      LinkedIs();
      SlotAt(registry, 0);
      SelectIs(State(), kind);
      SlotAt(registry, |registry|);
      if head == null {
        return null;
      }
      var candidate: KernelTask;
      ghost var c: nat;
      candidate, c := FirstCandidate();
      t := Search(candidate, kind, At(State()), c);
    }

    lemma ValidIs()
      ensures Valid() <==> Structural() && Safe(State())
    {
      hide Structural, Safe;
    }

    lemma BootstrapIs()
      requires Structural()
      ensures bootstrap.process == BOOTSTRAP_PROCESS && State().faults == faults
      ensures State().preemption == preemption && State().alive == alive && State().nextId == nextId
      ensures liveCount == |State().tasks|
    {}

    lemma StructuralIs()
      requires Structural()
      ensures Linked() && IdsOk(Snapshots(registry), nextId)
      ensures bootstrap.id == BOOTSTRAP_ID && bootstrap.process == BOOTSTRAP_PROCESS
    {}

    lemma StateIs()
      ensures State() == Sched(Snapshots(registry), current.id, nextId, bootstrap.state, bootstrap.frameOk,
                               preemption, faults, alive, active, halted)
    {}

    // ------------------------------------------------------------- operations

    /** What the abstract state says about the task at `i`. */
    lemma NamedTask(t: KernelTask, i: nat)
      requires Structural() && Names(t, i)
      ensures i <= |registry| == |State().tasks| && (t == bootstrap <==> i == |registry|)
      ensures StateAt(State(), i) == t.state && ProcessAt(State(), i) == t.process && IdAt(State(), i) == t.id
      ensures i < |registry| ==> State().tasks[i] == Task(t.id, t.process, t.state, t.kind, t.frameOk)
      ensures FrameAt(State(), i) == t.frameOk
      ensures State().alive == alive && State().active == active && State().preemption == preemption
      ensures t == bootstrap <==> t !in registry
    {
      hide IndexOf, Links, IdsOk;
    }

    lemma SlotNames(k: nat)
      ensures Slot(registry, k) == if k < |registry| then registry[k] else null
      ensures k < |registry| ==> Names(registry[k], k)
      ensures k == |registry| ==> Names(bootstrap, k)
    {}

    /** Store the scheduling fields of the task at `i`; its identity and links stay. */
    method Mark(t: KernelTask, state: TaskState, ghost i: nat)
      requires Structural() && Names(t, i)
      modifies t`state
      ensures Structural() && State() == WithState(old(State()), i, state)
    {
      hide IndexOf, At, Snapshots, Links;
      ghost var before := Snapshots(registry);
      t.state := state;
      SnapshotsUpdated(before, i, state);
    }

    lemma SnapshotsUpdated(before: seq<Task>, i: nat, state: TaskState)
      requires |before| == |registry| && Distinct(registry) && IdsOk(before, nextId)
      requires i < |registry| ==> before[i].(state := state) == registry[i].Snapshot()
      requires forall k :: 0 <= k < |registry| && k != i ==> registry[k].Snapshot() == before[k]
      ensures Snapshots(registry) == if i < |registry| then before[i := before[i].(state := state)] else before
      ensures IdsOk(Snapshots(registry), nextId)
    {}

    method Dispatch(t: KernelTask)
      requires Structural() && (t == bootstrap || t in registry)
      modifies this`current, this`active
      ensures Structural() && State() == old(State()).(current := t.id, active := t.process)
    {
      hide IndexOf, At, Links, Distinct, IdsOk, Snapshots;
      current := t;
      active := t.process;
    }

    /** Give the CPU to the task at `i`. */
    method Give(t: KernelTask, ghost i: nat)
      requires Structural() && Names(t, i)
      modifies t`state, this`current, this`active
      ensures Structural() && State() == SwitchTo(old(State()), i)
    {
      hide IndexOf, At, Structural, Snapshots, WithState;
      NamedTask(t, i);
      Mark(t, Running, i);
      Dispatch(t);
    }

    /** Mark the current task `state` and look for another; `k` is where it was found. */
    method StepAside(state: TaskState) returns (next: KernelTask?, ghost k: nat)
      requires Structural()
      modifies registry`state, bootstrap`state
      ensures Structural() && State() == WithState(old(State()), At(old(State())), state)
      ensures k == Select(State(), Cooperative) && k <= |registry|
      ensures next == Slot(registry, k) && (next != null <==> k < |registry|)
      ensures next != null ==> Names(next, k) && next in registry
    {
      hide *;
      CurrentNamed();
      ghost var i := At(State());
      NamedTask(current, i);
      Mark(current, state, i);
      NamedTask(current, i);
      k := Select(State(), Cooperative);
      SlotNames(k);
      next := SelectNext(Cooperative);
    }

    /**
     The current task steps aside into `state` and the next cooperative task takes over; when
     there is none, or its process cannot be activated, the current task carries on.
     */
    method GiveUp(state: TaskState, activates: bool) returns (switched: bool)
      requires Structural()
      modifies this`current, this`active, registry`state, bootstrap`state
      ensures Structural()
      ensures State() == SchedulerSpec.GiveUp(old(State()), state, activates)
      ensures switched <==> GaveUp(old(State()), state, activates)
    {
      hide *;
      CurrentNamed();
      ghost var i := At(State());
      GiveUpIs(State(), state, activates);
      var from := current;
      var next: KernelTask?;
      ghost var k: nat;
      next, k := StepAside(state);
      NamedTask(from, i);
      if next == null || !activates {
        Mark(from, Running, i);
        return false;
      }
      Give(next, k);
      return true;
    }

    method Yield(activates: bool)
      requires Valid() && Executing(State())
      modifies this`current, this`active, registry`state, bootstrap`state
      ensures Valid() && State() == SchedulerSpec.Yield(old(State()), activates)
    {
      hide *;
      ValidIs();
      YieldKeeps(State(), activates);
      YieldIs(State(), activates);
      CurrentNamed();
      NamedTask(current, At(State()));
      if preemption {
        return;
      }
      var switched := GiveUp(Ready, activates);
      ValidIs();
    }

    method Block(activates: bool) returns (switched: bool)
      requires Valid() && Executing(State())
      modifies this`current, this`active, registry`state, bootstrap`state
      ensures Valid() && State() == SchedulerSpec.Block(old(State()), activates)
      ensures switched <==> BlocksNow(old(State()), activates)
    {
      hide *;
      ValidIs();
      BlockKeeps(State(), activates);
      BlockIs(State(), activates);
      CurrentNamed();
      NamedTask(current, At(State()));
      if preemption {
        return false;
      }
      var regular := CurrentIsRegular();
      if !regular || current.kind != Cooperative {
        return false;
      }
      switched := GiveUp(Blocked, activates);
      ValidIs();
    }

    /** task_is_regular(current_task). */
    method CurrentIsRegular() returns (regular: bool)
      requires Structural()
      ensures regular <==> At(State()) < |State().tasks|
    {
      hide *;
      StructuralIs();
      CurrentNamed();
      NamedTask(current, At(State()));
      regular := IsRegular(current);
    }

    /** The tasks before `k` have had the wake-up, the rest not. */
    ghost predicate WokenUpTo(before: Sched, process: nat, k: nat)
      reads this, registry
    {
      && |registry| == |before.tasks|
      && forall j :: 0 <= j < |registry| ==>
           registry[j].Snapshot() == if j < k then SchedulerSpec.Wake(before, process).tasks[j] else before.tasks[j]
    }

    method WakeOne(t: KernelTask, process: nat, ghost before: Sched, ghost k: nat) returns (woken: bool)
      requires Linked() && WokenUpTo(before, process, k) && |registry| == |before.tasks|
      requires k < |registry| && t == registry[k] && process in alive && alive == before.alive
      modifies t`state
      ensures Linked() && WokenUpTo(before, process, k + 1)
      ensures WakesAny(before, process, k + 1) <==> WakesAny(before, process, k) || woken
    {
      assert t.Snapshot() == before.tasks[k];
      if t.process == process && t.kind == Cooperative && t.state == TaskState.Blocked {
        t.state := Ready;
        return true;
      }
      return false;
    }

    /** The loop of task_wake_process over the registry. */
    method WakeAll(process: nat, ghost before: Sched) returns (woke: bool, ghost k: nat)
      requires Linked() && WokenUpTo(before, process, 0) && |registry| == |before.tasks|
      requires process in alive && alive == before.alive && !WakesAny(before, process, 0)
      modifies registry`state
      ensures Linked() && k <= |registry| && Slot(registry, k) == null && WokenUpTo(before, process, k)
      ensures woke <==> WakesAny(before, process, k)
    {
      hide *;
      var cursor := head;
      k := 0;
      woke := false;
      HeadIs();
      while cursor != null
        invariant k <= |registry| && cursor == Slot(registry, k)
        invariant Linked() && WokenUpTo(before, process, k)
        invariant woke <==> WakesAny(before, process, k)
        decreases |registry| - k
      {
        NextIs(k);
        var woken := WakeOne(cursor, process, before, k);
        woke := woke || woken;
        cursor := cursor.next;
        k := k + 1;
      }
    }

    method Wake(process: nat) returns (woke: bool)
      requires Valid()
      modifies registry`state
      ensures Valid() && State() == SchedulerSpec.Wake(old(State()), process)
      ensures woke <==> process in old(alive) && WakesAny(old(State()), process, |registry|)
    {
      hide *;
      ValidIs();
      ghost var before := State();
      WakeKeeps(before, process);
      NoneWoken(process);
      if process !in alive {
        return false;
      }
      ghost var k: nat;
      woke, k := WakeAll(process, before);
      AllWoken(before, process, k);
    }

    lemma HeadIs()
      requires Linked()
      ensures head == Slot(registry, 0)
    {}

    lemma NoneWoken(process: nat)
      requires Valid()
      ensures Linked() && |registry| == |State().tasks|
      ensures bootstrap.id == BOOTSTRAP_ID && bootstrap.process == BOOTSTRAP_PROCESS && bootstrap !in registry
      ensures State() == Sched(State().tasks, current.id, nextId, bootstrap.state, bootstrap.frameOk,
                               preemption, faults, alive, active, halted)
      ensures WokenUpTo(State(), process, 0) && !WakesAny(State(), process, 0)
      ensures process !in alive ==> SchedulerSpec.Wake(State(), process) == State()
    {
      hide Safe, At, IndexOf, IdsOk;
      assert process !in alive ==> SchedulerSpec.Wake(State(), process).tasks == State().tasks;
    }

    lemma AllWoken(before: Sched, process: nat, k: nat)
      requires Linked() && k <= |registry| && Slot(registry, k) == null && WokenUpTo(before, process, k)
      requires before == Sched(before.tasks, current.id, nextId, bootstrap.state, bootstrap.frameOk,
                               preemption, faults, alive, active, halted)
      requires Safe(SchedulerSpec.Wake(before, process))
      requires bootstrap.id == BOOTSTRAP_ID && bootstrap.process == BOOTSTRAP_PROCESS
      ensures Valid() && State() == SchedulerSpec.Wake(before, process) && k == |registry|
    {
      assert Snapshots(registry) == SchedulerSpec.Wake(before, process).tasks;
    }

    lemma NextIs(k: nat)
      requires Linked() && k <= |registry|
      ensures k < |registry| <==> Slot(registry, k) != null
      ensures k < |registry| ==> registry[k].next == Slot(registry, k + 1) && Slot(registry, k) == registry[k]
    {}

    /** The current task is done: the next cooperative task, or else the bootstrap task, runs. */
    lemma LeaveIs(activates: bool)
      requires Structural()
      ensures var s := State();
        var k := Select(s, Cooperative);
        && k <= |registry|
        && SchedulerSpec.Leave(s, activates)
           == if ProcessAt(s, k) in alive && activates then SwitchTo(s, k) else s.(halted := true)
    {}

    /** The next cooperative task, or else the bootstrap task. */
    method NextOrBootstrap() returns (next: KernelTask, ghost k: nat)
      requires Structural()
      ensures k == Select(State(), Cooperative) && Names(next, k)
      ensures next == bootstrap || next in registry
    {
      hide *;
      k := Select(State(), Cooperative);
      SlotNames(k);
      LeaveIs(true);
      var chosen := SelectNext(Cooperative);
      next := if chosen == null then bootstrap else chosen;
    }

    /** The current task is done: the next cooperative task, or else the bootstrap task, runs. */
    method Leave(activates: bool)
      requires Structural()
      modifies this`current, this`active, this`halted, registry`state, bootstrap`state
      ensures Structural() && State() == SchedulerSpec.Leave(old(State()), activates)
    {
      hide *;
      LeaveIs(activates);
      var next: KernelTask;
      ghost var k: nat;
      next, k := NextOrBootstrap();
      NamedTask(next, k);
      if next.process !in alive || !activates {
        Halt();
        return;
      }
      Give(next, k);
    }

    /** x86_64_halt_forever. */
    method Halt()
      requires Structural()
      modifies this`halted
      ensures Structural() && State() == old(State()).(halted := true)
    {
      hide IndexOf, At, IdsOk, Distinct, Links;
      halted := true;
    }

    method Finish(activates: bool)
      requires Valid() && Executing(State())
      modifies this`current, this`active, this`halted, registry`state, bootstrap`state
      ensures Valid() && State() == SchedulerSpec.Finish(old(State()), activates)
    {
      hide *;
      ValidIs();
      ghost var i := At(State());
      FinishKeeps(State(), activates);
      FinishIs(State(), activates);
      CurrentNamed();
      NamedTask(current, i);
      var regular := CurrentIsRegular();
      if !regular || current.process !in alive || active != current.process {
        Halt();
        ValidIs();
        return;
      }
      Mark(current, Finished, i);
      if !preemption {
        Leave(activates);
      }
      ValidIs();
    }

    method Exit(activates: bool, cleaned: bool)
      requires Valid() && Executing(State())
      modifies this`current, this`active, this`halted, this`alive, registry`state, bootstrap`state
      ensures Valid() && State() == SchedulerSpec.Exit(old(State()), activates, cleaned)
    {
      hide *;
      ValidIs();
      ghost var before, i: nat := State(), At(State());
      ExitKeeps(before, activates, cleaned);
      ExitIs(before, activates, cleaned);
      CurrentNamed();
      NamedTask(current, i);
      var regular := CurrentIsRegular();
      if preemption || !regular || current.kind != Cooperative || current.process !in alive {
        Halt();
        ValidIs();
        return;
      }
      var finished := current.process;
      Mark(current, Finished, i);
      Depart(finished, activates, cleaned);
      ValidIs();
    }

    /** The finished task hands over, and its process is marked finished. */
    method Depart(finished: nat, activates: bool, cleaned: bool)
      requires Structural()
      modifies this`current, this`active, this`halted, this`alive, registry`state, bootstrap`state
      ensures Structural() && State() == Departed(old(State()), finished, activates, cleaned)
    {
      hide *;
      DepartedIs(State(), finished, activates, cleaned);
      var next: KernelTask;
      ghost var k: nat;
      next, k := NextOrBootstrap();
      NamedTask(next, k);
      if next.process !in alive || !activates {
        Halt();
        return;
      }
      var marked := MarkFinished(finished, next.process, cleaned);
      if !marked {
        Halt();
        return;
      }
      NamedTask(next, k);
      Give(next, k);
    }

    /** process_mark_finished of a process, while `loaded` is the one on the CPU. */
    method MarkFinished(process: nat, loaded: nat, cleaned: bool) returns (marked: bool)
      requires Structural()
      modifies this`alive
      ensures Structural()
      ensures marked <==> process != BOOTSTRAP_PROCESS && process in old(alive) && loaded != process && cleaned
      ensures State() == if marked then old(State()).(alive := old(State()).alive - {process}) else old(State())
    {
      hide IndexOf, At, IdsOk, Distinct, Links;
      if process == BOOTSTRAP_PROCESS || process !in alive || loaded == process || !cleaned {
        return false;
      }
      alive := alive - {process};
      return true;
    }

    /** Preemption starts only from the bootstrap task, over ready preemptive tasks. */
    method Start() returns (started: bool)
      requires Valid()
      modifies this`preemption, this`faults, bootstrap`frameOk
      ensures Valid() && State() == SchedulerSpec.Start(old(State())) && (started <==> StartOk(old(State())))
    {
      hide *;
      ValidIs();
      StartKeeps(State());
      StartIs(State());
      CurrentNamed();
      NamedTask(current, At(State()));
      BootstrapIs();
      var ready := AllEligible();
      if preemption || current != bootstrap || bootstrap.state != Running || active != bootstrap.process {
        return false;
      }
      if !ready || liveCount == 0 {
        return false;
      }
      SetPreemption(true, 0);
      ValidIs();
      return true;
    }

    /** Whether every registered task is one the preemptive scheduler could pick. */
    method AllEligible() returns (all: bool)
      requires Structural()
      ensures all <==> AllReady(State())
    {
      CurrentNamed();
      hide IndexOf, At, IdsOk, Links;
      var cursor := head;
      ghost var k := 0;
      while cursor != null
        invariant k <= |registry| && cursor == Slot(registry, k)
        invariant forall i :: 0 <= i < k ==> Eligible(State(), i, Preemptive)
        decreases |registry| - k
      {
        NextIs(k);
        EligibleIs(k, At(State()), Preemptive);
        if !IsEligible(cursor, Preemptive) {
          return false;
        }
        cursor := cursor.next;
        k := k + 1;
      }
      return true;
    }

    method Stop() returns (stopped: bool)
      requires Valid()
      modifies this`preemption, this`faults, bootstrap`frameOk
      ensures Valid() && State() == SchedulerSpec.Stop(old(State()))
      ensures stopped <==> old(preemption) && !preemption
    {
      hide *;
      ValidIs();
      StopKeeps(State());
      StopIs(State());
      CurrentNamed();
      NamedTask(current, At(State()));
      BootstrapIs();
      if !preemption || current != bootstrap || bootstrap.state != Running || active != bootstrap.process {
        return false;
      }
      SetPreemption(false, faults);
      ValidIs();
      return true;
    }

    method SetPreemption(on: bool, faults: nat)
      requires Structural()
      modifies this`preemption, this`faults, bootstrap`frameOk
      ensures Structural()
      ensures State() == old(State()).(preemption := on, bootFrame := false, faults := faults) && preemption == on
    {
      hide IndexOf, At, IdsOk;
      bootstrap.frameOk := false;
      this.faults := faults;
      preemption := on;
      assert Snapshots(registry) == old(Snapshots(registry));
    }

    // ------------------------------------------------------------ the timer tick

    /** The scheduling fields of the task at `i` while its frame is saved. */
    method Suspend(t: KernelTask, state: TaskState, ghost i: nat)
      requires Structural() && Names(t, i)
      modifies t`state, t`frameOk
      ensures Structural() && State() == Suspended(old(State()), i, state) && t.state == state
    {
      hide IndexOf, At, Snapshots, Links;
      ghost var before := Snapshots(registry);
      t.frameOk := true;
      t.state := state;
      SuspendedSnapshots(before, i, state);
    }

    lemma SuspendedSnapshots(before: seq<Task>, i: nat, state: TaskState)
      requires |before| == |registry| && Distinct(registry) && IdsOk(before, nextId)
      requires i < |registry| ==> before[i].(frameOk := true, state := state) == registry[i].Snapshot()
      requires forall k :: 0 <= k < |registry| && k != i ==> registry[k].Snapshot() == before[k]
      ensures Snapshots(registry)
           == if i < |registry| then before[i := before[i].(frameOk := true, state := state)] else before
      ensures IdsOk(Snapshots(registry), nextId)
    {}

    /** The first half of the tick: save the interrupted task, unless something is wrong with it. */
    method SaveInterrupted(frameOk: bool) returns (saved: bool)
      requires Structural()
      modifies registry`state, registry`frameOk, bootstrap`state, bootstrap`frameOk
      ensures Structural()
      ensures Interrupt(old(State()), frameOk) == if saved then Some(State()) else None
      ensures !saved ==> State() == old(State())
      ensures saved && current == bootstrap ==> bootstrap.state == Ready
    {
      hide *;
      CurrentNamed();
      ghost var i := At(State());
      NamedTask(current, i);
      InterruptedIs(State(), frameOk);
      var from := current;
      if from.process !in alive || active != from.process {
        return false;
      }
      if from == bootstrap {
        Suspend(from, Ready, i);
        return true;
      }
      var regular := CurrentIsRegular();
      if !regular || from.kind != Preemptive || !frameOk || (from.state != Running && from.state != Finished) {
        return false;
      }
      Suspend(from, if from.state == Running then Ready else Finished, i);
      return true;
    }

    method Fault()
      requires Structural()
      modifies this`preemption, this`faults
      ensures Structural() && State() == SchedulerSpec.Fault(old(State()))
    {
      hide IndexOf, At, IdsOk, Distinct, Links;
      faults := faults + 1;
      preemption := false;
    }

    /** The task the tick goes to, or null to let the interrupted one carry on. */
    method NextPreemptive() returns (next: KernelTask?, ghost k: nat)
      requires Structural() && (current == bootstrap ==> bootstrap.state == Ready)
      ensures k == Select(State(), Preemptive) && k <= |registry|
      ensures next == null <==> k == |registry| && StateAt(State(), At(State())) != Finished
      ensures next != null ==> Names(next, k) && (next == bootstrap || next in registry)
    {
      hide *;
      CurrentNamed();
      NamedTask(current, At(State()));
      k := Select(State(), Preemptive);
      SlotNames(k);
      next := SelectNext(Preemptive);
      if next == null && current != bootstrap && current.state == Finished {
        next := bootstrap;
      }
    }

    /** The second half of the tick, once the interrupted task is saved. */
    method Preempt(activates: bool)
      requires Structural() && (current == bootstrap ==> bootstrap.state == Ready)
      modifies this`current, this`active, this`preemption, this`faults, registry`state, bootstrap`state
      ensures Structural() && State() == Preempted(old(State()), activates)
    {
      hide *;
      CurrentNamed();
      ghost var i := At(State());
      NamedTask(current, i);
      PreemptedIs(State(), activates);
      var from := current;
      var next: KernelTask?;
      ghost var k: nat;
      next, k := NextPreemptive();
      if next != null {
        NamedTask(next, k);
      }
      if next == null {
        Mark(from, Running, i);
      } else if !next.frameOk {
        Fault();
      } else if next.process !in alive || !activates {
        var resumes := from.state == Ready;
        Fault();
        if resumes {
          Mark(from, Running, i);
        }
      } else {
        Give(next, k);
      }
    }

    /** task_scheduler_tick, on the timer interrupt. */
    method Tick(frameOk: bool, activates: bool)
      requires Valid()
      modifies this`current, this`active, this`preemption, this`faults
      modifies registry`state, registry`frameOk, bootstrap`state, bootstrap`frameOk
      ensures Valid() && State() == SchedulerSpec.Tick(old(State()), frameOk, activates)
    {
      hide *;
      ValidIs();
      TickKeeps(State(), frameOk, activates);
      TickHalves(State(), frameOk, activates);
      CurrentNamed();
      NamedTask(current, At(State()));
      if !preemption {
        return;
      }
      var saved := SaveInterrupted(frameOk);
      if saved {
        Preempt(activates);
      } else {
        Fault();
      }
      ValidIs();
    }

    // ------------------------------------------------- tasks come and tasks go

    /** task_create_internal; `ok` is whether memory and a first frame could be prepared. */
    method Create(process: nat, kind: Kind, ok: bool) returns (created: Option<nat>)
      requires Valid() && Executing(State())
      modifies this`head, this`tail, this`liveCount, this`nextId, this`registry, registry`next
      ensures Valid() && State() == SchedulerSpec.Create(old(State()), process, kind, ok)
      ensures created == if CreateOk(old(State()), process, ok) then Some(old(nextId)) else None
    {
      hide *;
      ValidIs();
      CreateKeeps(State(), process, kind, ok);
      CreateIs(State(), process, kind, ok);
      BootstrapIs();
      if preemption || process !in alive || nextId == LAST_ID || POLICY_LIMIT <= liveCount || !ok {
        return None;
      }
      var t := new KernelTask(nextId, process, Ready, kind, true);
      Register(t);
      ValidIs();
      return Some(t.id);
    }

    method Register(t: KernelTask)
      requires Structural() && t !in registry && t != bootstrap && t.id == nextId
      modifies this`head, this`tail, this`liveCount, this`nextId, this`registry, registry`next, t`prev, t`next
      ensures Structural() && nextId == old(nextId) + 1
      ensures t.id == old(t.id)
      ensures State() == old(State()).(
        tasks := old(State()).tasks + [Task(t.id, t.process, t.state, t.kind, t.frameOk)], nextId := nextId)
    {
      hide *;
      StructuralIs();
      StateIs();
      ghost var ts := registry;
      Append(t);
      nextId := nextId + 1;
      StateIs();
      RegisteredIs(ts, t);
    }

    lemma RegisteredIs(ts: seq<KernelTask>, t: KernelTask)
      requires Linked() && registry == ts + [t] && IdsOk(Snapshots(ts), t.id) && nextId == t.id + 1
      requires bootstrap.id == BOOTSTRAP_ID && bootstrap.process == BOOTSTRAP_PROCESS
      ensures Structural()
      ensures Snapshots(registry) == Snapshots(ts) + [Task(t.id, t.process, t.state, t.kind, t.frameOk)]
    {
      hide Links, Distinct, Snapshots;
      assert Snapshots(registry) == Snapshots(ts) + [Task(t.id, t.process, t.state, t.kind, t.frameOk)];
    }

    /** The first pass of task_reap_finished_process over the registry. */
    method Inspect(process: nat) returns (found: bool, reapable: bool)
      requires Structural()
      ensures reapable <==> AllReapable(State(), process, |registry|)
      ensures reapable ==> (found <==> OwnsAny(State(), process, |registry|))
    {
      hide *;
      StructuralIs();
      HeadIs();
      CurrentNamed();
      NamedTask(current, At(State()));
      NothingInspected(State(), process);
      var cursor := head;
      ghost var k := 0;
      found, reapable := false, true;
      while cursor != null && reapable
        invariant k <= |registry| && cursor == Slot(registry, k)
        invariant if reapable then AllReapable(State(), process, k) else !AllReapable(State(), process, |registry|)
        invariant reapable ==> (found <==> OwnsAny(State(), process, k))
        decreases |registry| - k, reapable
      {
        NextIs(k);
        NamedHere(k);
        InspectOne(State(), process, k);
        if cursor.process == process {
          found := true;
          if cursor == current || cursor.state != Finished {
            reapable := false;
          }
        }
        if reapable {
          cursor := cursor.next;
          k := k + 1;
        }
      }
      SlotAt(registry, k);
    }

    lemma NamedHere(k: nat)
      requires Structural() && k < |registry|
      ensures |State().tasks| == |registry|
      ensures State().tasks[k].process == registry[k].process && State().tasks[k].state == registry[k].state
      ensures State().tasks[k].id == State().current <==> registry[k] == current
    {}

    /** The removal pass: the tasks of `process`, none of them current, leave the registry. */
    method Purge(process: nat)
      requires Structural() && (current == bootstrap || current.process != process)
      modifies this`head, this`tail, this`liveCount, this`registry, registry`prev, registry`next
      ensures Structural() && State() == old(State()).(tasks := Others(old(State()).tasks, process))
    {
      hide *;
      StructuralIs();
      LinkedIs();
      StateIs();
      ghost var s, ts := State(), registry;
      PurgeLoop(process);
      StateIs();
      PurgeEnds(s, ts, process);
    }

    method PurgeLoop(process: nat)
      requires Linked() && bootstrap !in registry && (current == bootstrap || current.process != process)
      modifies this`head, this`tail, this`liveCount, this`registry, registry`prev, registry`next
      ensures Linked() && registry == Surviving(old(registry), process, |old(registry)|)
    {
      hide *;
      HeadIs();
      ghost var ts := registry;
      PurgeStarts(ts, process);
      var cursor := head;
      ghost var k := 0;
      while cursor != null
        invariant k <= |ts| && cursor == Slot(ts, k) && Linked()
        invariant registry == Surviving(ts, process, k) + ts[k..] && forall t :: t in registry ==> t in ts
        decreases |ts| - k
      {
        SlotAt(ts, k);
        cursor := PurgeOne(cursor, process, ts, k);
        k := k + 1;
      }
      SlotAt(ts, k);
    }

    method PurgeOne(t: KernelTask, process: nat, ghost ts: seq<KernelTask>, ghost k: nat)
      returns (next: KernelTask?)
      requires Linked() && k < |ts| && t == ts[k] && registry == Surviving(ts, process, k) + ts[k..]
      requires (t.process == process ==> t != current) && forall u :: u in registry ==> u in ts
      modifies this`head, this`tail, this`liveCount, this`registry, ts`prev, ts`next
      ensures Linked() && registry == Surviving(ts, process, k + 1) + ts[k + 1..] && next == Slot(ts, k + 1)
      ensures forall u :: u in registry ==> u in ts
    {
      hide *;
      ghost var us := Surviving(ts, process, k);
      Splice(us, ts, k);
      SurvivingOne(ts, process, k);
      NextIs(|us|);
      next := t.next;
      if t.process == process {
        assert forall i :: 0 <= i < |registry| ==> registry[i] in ts;
        Remove(t, |us|);
      }
    }

    lemma PurgeEnds(s: Sched, ts: seq<KernelTask>, process: nat)
      requires Linked() && registry == Surviving(ts, process, |ts|)
      requires IdsOk(Snapshots(ts), nextId) && s.tasks == Snapshots(ts)
      requires bootstrap.id == BOOTSTRAP_ID && bootstrap.process == BOOTSTRAP_PROCESS
      ensures Structural() && Snapshots(registry) == Others(s.tasks, process)
    {
      SurvivingSnapshots(ts, process, |ts|);
      assert Snapshots(ts)[..|ts|] == Snapshots(ts);
      OthersExact(s.tasks, process, nextId);
      hide Links, Distinct, IdsOk;
    }

    /** task_reap_finished_process. */
    method Reap(process: nat) returns (reaped: bool)
      requires Valid()
      modifies this`head, this`tail, this`liveCount, this`registry, registry`prev, registry`next
      ensures Valid() && State() == SchedulerSpec.Reap(old(State()), process)
      ensures reaped <==> ReapOk(old(State()), process) && OwnsAny(old(State()), process, |old(registry)|)
    {
      hide *;
      ValidIs();
      StateIs();
      ReapKeeps(State(), process);
      CurrentNamed();
      NamedTask(current, At(State()));
      ReapIs(State(), process);
      if preemption || process == active || process in alive {
        return false;
      }
      var found, reapable := Inspect(process);
      if !reapable || !found {
        return false;
      }
      Purge(process);
      ValidIs();
      return true;
    }

    method CheckFinished() returns (all: bool)
      requires Structural()
      ensures all <==> AllFinished(State())
    {
      hide IndexOf, At, IdsOk, Links;
      var cursor := head;
      ghost var k := 0;
      while cursor != null
        invariant k <= |registry| && cursor == Slot(registry, k)
        invariant forall i :: 0 <= i < k ==> State().tasks[i].state == Finished
        decreases |registry| - k
      {
        NextIs(k);
        if cursor.state != Finished {
          return false;
        }
        cursor := cursor.next;
        k := k + 1;
      }
      return true;
    }

    /** The removal pass of task_cleanup_finished. */
    method RemoveAll() returns (freed: nat)
      requires Linked() && current == bootstrap
      modifies this`head, this`tail, this`liveCount, this`registry, registry`prev, registry`next
      ensures Linked() && registry == [] && freed == |old(registry)|
    {
      hide *;
      HeadIs();
      ghost var ts := registry;
      freed := 0;
      var cursor := head;
      assert ts[0..] == ts;
      while cursor != null
        invariant freed <= |ts| && cursor == Slot(ts, freed) && Linked() && registry == ts[freed..]
        decreases |ts| - freed
      {
        SlotAt(ts, freed);
        DropFirst(ts, freed);
        NextIs(0);
        LinkedIs();
        var next := cursor.next;
        assert forall i :: 0 <= i < |registry| ==> registry[i] in ts;
        Remove(cursor, 0);
        cursor := next;
        freed := freed + 1;
      }
      SlotAt(ts, freed);
    }

    /** task_cleanup_finished: how many tasks it freed, unless it refuses. */
    method Cleanup() returns (freed: Option<nat>)
      requires Valid()
      modifies this`head, this`tail, this`liveCount, this`registry, registry`prev, registry`next
      ensures Valid() && State() == SchedulerSpec.Cleanup(old(State()))
      ensures freed == if CleanupOk(old(State())) then Some(|old(registry)|) else None
    {
      hide *;
      ValidIs();
      StateIs();
      CleanupKeeps(State());
      CurrentNamed();
      NamedTask(current, At(State()));
      CleanupIs(State());
      StructuralIs();
      if preemption || current != bootstrap || bootstrap.state != Running || active != bootstrap.process {
        return None;
      }
      var all := CheckFinished();
      if !all {
        return None;
      }
      var n := RemoveAll();
      StateIs();
      EmptyIs();
      ValidIs();
      return Some(n);
    }

    lemma EmptyIs()
      requires Linked() && registry == [] && 0 < nextId
      requires bootstrap.id == BOOTSTRAP_ID && bootstrap.process == BOOTSTRAP_PROCESS
      ensures Snapshots(registry) == [] && Structural()
    {}
  }

  lemma DropFirst(ts: seq<KernelTask>, k: nat)
    requires k < |ts|
    ensures Slot(ts[k..], 1) == Slot(ts, k + 1) && Without(ts[k..], 0) == ts[k + 1..]
  {}

  lemma CleanupIs(s: Sched)
    ensures CleanupOk(s)
       <==> !s.preemption && At(s) == |s.tasks| && s.bootState == Running && s.active == BOOTSTRAP_PROCESS && AllFinished(s)
    ensures SchedulerSpec.Cleanup(s) == if CleanupOk(s) then s.(tasks := []) else s
    ensures IdsOk(s.tasks, s.nextId) ==> 0 < s.nextId
  {}

  lemma ReapIs(s: Sched, process: nat)
    ensures ReapOk(s, process)
       <==> !s.preemption && process != s.active && process !in s.alive && AllReapable(s, process, |s.tasks|)
    ensures SchedulerSpec.Reap(s, process)
         == if ReapOk(s, process) && OwnsAny(s, process, |s.tasks|) then s.(tasks := Others(s.tasks, process)) else s
    ensures Safe(s) && At(s) < |s.tasks| ==> ProcessAt(s, At(s)) == s.active
  {
    if !OwnsAny(s, process, |s.tasks|) {
      OthersNone(s.tasks, process);
    }
    if Safe(s) && At(s) < |s.tasks| {
      CurrentIndex(s);
    }
  }

  lemma {:induction false} OthersNone(ts: seq<Task>, process: nat)
    requires forall i :: 0 <= i < |ts| ==> ts[i].process != process
    ensures Others(ts, process) == ts
  {
    if ts != [] {
      OthersNone(ts[..|ts| - 1], process);
    }
  }

  /** `ts` with the tasks of `process` among the first `k` taken out. */
  ghost function Surviving(ts: seq<KernelTask>, process: nat, k: nat): (us: seq<KernelTask>)
    requires k <= |ts|
    reads ts`process
    ensures forall t :: t in us ==> t in ts
  {
    if k == 0 then []
    else Surviving(ts, process, k - 1) + if ts[k - 1].process == process then [] else [ts[k - 1]]
  }

  lemma PurgeStarts(ts: seq<KernelTask>, process: nat)
    ensures Surviving(ts, process, 0) + ts[0..] == ts
  {}

  lemma SurvivingOne(ts: seq<KernelTask>, process: nat, k: nat)
    requires k < |ts|
    ensures Surviving(ts, process, k + 1)
         == Surviving(ts, process, k) + if ts[k].process == process then [] else [ts[k]]
  {}

  lemma {:induction false} SurvivingSnapshots(ts: seq<KernelTask>, process: nat, k: nat)
    requires k <= |ts|
    ensures Snapshots(Surviving(ts, process, k)) == Others(Snapshots(ts)[..k], process)
  {
    hide Snapshots;
    if k == 0 {
      assert Snapshots(Surviving(ts, process, k)) == [];
    } else {
      SurvivingSnapshots(ts, process, k - 1);
      var us := Surviving(ts, process, k - 1);
      var tail := if ts[k - 1].process == process then [] else [ts[k - 1]];
      assert Snapshots(ts)[..k][..k - 1] == Snapshots(ts)[..k - 1];
      assert Snapshots(us + tail) == Snapshots(us) + Snapshots(tail);
      assert Snapshots(tail) == if ts[k - 1].process == process then [] else [ts[k - 1].Snapshot()];
    }
  }

  /** What happens to a list when it is walked with the part `us` of its first `k` tasks kept. */
  lemma Splice(us: seq<KernelTask>, ts: seq<KernelTask>, k: nat)
    requires k < |ts|
    ensures var all := us + ts[k..];
      && |us| < |all| && all[|us|] == ts[k] == Slot(ts, k) && Slot(all, |us| + 1) == Slot(ts, k + 1)
      && Without(all, |us|) == us + ts[k + 1..]
      && us + [ts[k]] + ts[k + 1..] == all
  {}

  lemma NothingInspected(s: Sched, process: nat)
    ensures AllReapable(s, process, 0) && !OwnsAny(s, process, 0)
  {}

  lemma InspectOne(s: Sched, process: nat, k: nat)
    requires k < |s.tasks|
    ensures var t := s.tasks[k];
      && (AllReapable(s, process, |s.tasks|) ==> AllReapable(s, process, k + 1))
      && (AllReapable(s, process, k + 1) <==>
          AllReapable(s, process, k) && (t.process == process ==> t.state == Finished && t.id != s.current))
      && (OwnsAny(s, process, k + 1) <==> OwnsAny(s, process, k) || t.process == process)
  {}

  ghost predicate FrameAt(s: Sched, i: nat) {
    if i < |s.tasks| then s.tasks[i].frameOk else s.bootFrame
  }

  ghost function Suspended(s: Sched, i: nat, state: TaskState): Sched {
    if i < |s.tasks| then s.(tasks := s.tasks[i := s.tasks[i].(frameOk := true, state := state)])
    else s.(bootFrame := true, bootState := state)
  }

  lemma InterruptedIs(s: Sched, frameOk: bool)
    ensures var from := At(s);
      Interrupt(s, frameOk)
      == if ProcessAt(s, from) !in s.alive || s.active != ProcessAt(s, from) then None
         else if from == |s.tasks| then Some(Suspended(s, from, Ready))
         else if s.tasks[from].kind != Preemptive || !frameOk then None
         else if StateAt(s, from) != Running && StateAt(s, from) != Finished then None
         else Some(Suspended(s, from, if StateAt(s, from) == Running then Ready else Finished))
  {}

  ghost function Preempted(s: Sched, activates: bool): Sched {
    var from, next := At(s), Select(s, Preemptive);
    if next == |s.tasks| && StateAt(s, from) != Finished then WithState(s, from, Running)
    else if next == |s.tasks| && !s.bootFrame then SchedulerSpec.Fault(s)
    else if ProcessAt(s, next) !in s.alive || !activates then
      SchedulerSpec.Fault(if StateAt(s, from) == Ready then WithState(s, from, Running) else s)
    else SwitchTo(s, next)
  }

  lemma PreemptedIs(s: Sched, activates: bool)
    ensures var from, next := At(s), Select(s, Preemptive);
      var state := StateAt(s, from);
      && next <= |s.tasks| && (next < |s.tasks| ==> FrameAt(s, next))
      && Preempted(s, activates)
         == if next == |s.tasks| && state != Finished then WithState(s, from, Running)
            else if !FrameAt(s, next) then SchedulerSpec.Fault(s)
            else if ProcessAt(s, next) !in s.alive || !activates then
              if state == Ready then WithState(SchedulerSpec.Fault(s), from, Running) else SchedulerSpec.Fault(s)
            else SwitchTo(s, next)
  {}

  lemma TickHalves(s: Sched, frameOk: bool, activates: bool)
    ensures SchedulerSpec.Tick(s, frameOk, activates)
         == if !s.preemption then s
            else match Interrupt(s, frameOk)
              case None => SchedulerSpec.Fault(s)
              case Some(paused) => Preempted(paused, activates)
  {
    if Interrupt(s, frameOk).Some? {
      var paused := Interrupt(s, frameOk).value;
      SameIndex(s.tasks, paused.tasks, s.current, 0);
      assert At(paused) == At(s);
      hide Select, SwitchTo, WithState, Interrupt;
    }
  }

  ghost function Departed(s: Sched, finished: nat, activates: bool, cleaned: bool): Sched {
    var k := Select(s, Cooperative);
    if ProcessAt(s, k) !in s.alive || !activates then s.(halted := true)
    else if finished == BOOTSTRAP_PROCESS || finished !in s.alive || ProcessAt(s, k) == finished || !cleaned then s.(halted := true)
    else SwitchTo(s, k).(alive := s.alive - {finished})
  }

  lemma DepartedIs(s: Sched, finished: nat, activates: bool, cleaned: bool)
    ensures var k := Select(s, Cooperative);
      && k <= |s.tasks|
      && (k == |s.tasks| ==> ProcessAt(s, k) == BOOTSTRAP_PROCESS)
      && SwitchTo(s.(alive := s.alive - {finished}), k) == SwitchTo(s, k).(alive := s.alive - {finished})
      && Departed(s, finished, activates, cleaned)
         == if ProcessAt(s, k) !in s.alive || !activates then s.(halted := true)
            else if finished == BOOTSTRAP_PROCESS || finished !in s.alive || ProcessAt(s, k) == finished || !cleaned then s.(halted := true)
            else SwitchTo(s, k).(alive := s.alive - {finished})
  {}

  lemma ExitIs(s: Sched, activates: bool, cleaned: bool)
    requires Executing(s)
    ensures var from := At(s);
      && (from < |s.tasks| ==> s.tasks[from].process == ProcessAt(s, from))
      && SchedulerSpec.Exit(s, activates, cleaned)
         == if s.preemption || from == |s.tasks| || s.tasks[from].kind != Cooperative || ProcessAt(s, from) !in s.alive
            then s.(halted := true)
            else Departed(WithState(s, from, Finished), ProcessAt(s, from), activates, cleaned)
  {}

  lemma SelectIs(s: Sched, kind: Kind)
    ensures s.tasks == [] ==> Select(s, kind) == 0
    ensures s.tasks != [] ==>
      Select(s, kind) == Scan(s, At(s), kind, if At(s) < |s.tasks| then Next(|s.tasks|, At(s)) else 0, |s.tasks|)
  {}

  lemma CreateIs(s: Sched, process: nat, kind: Kind, ok: bool)
    ensures CreateOk(s, process, ok)
       <==> !s.preemption && process in s.alive && s.nextId != LAST_ID && |s.tasks| < POLICY_LIMIT && ok
    ensures SchedulerSpec.Create(s, process, kind, ok)
         == if CreateOk(s, process, ok)
            then s.(tasks := s.tasks + [Task(s.nextId, process, Ready, kind, true)], nextId := s.nextId + 1) else s
  {}

  lemma YieldIs(s: Sched, activates: bool)
    ensures SchedulerSpec.Yield(s, activates) == if s.preemption then s else SchedulerSpec.GiveUp(s, Ready, activates)
  {}

  lemma BlockIs(s: Sched, activates: bool)
    ensures SchedulerSpec.Block(s, activates)
         == if s.preemption || At(s) == |s.tasks| || s.tasks[At(s)].kind != Cooperative then s
            else SchedulerSpec.GiveUp(s, Blocked, activates)
    ensures BlocksNow(s, activates)
       <==> !s.preemption && At(s) < |s.tasks| && s.tasks[At(s)].kind == Cooperative && GaveUp(s, Blocked, activates)
  {
    NearestSelected(s, Blocked);
    hide At, Select, WithState, Eligible;
  }

  lemma FinishIs(s: Sched, activates: bool)
    ensures var from := At(s);
      var done := WithState(s, from, Finished);
      SchedulerSpec.Finish(s, activates)
      == if from == |s.tasks| || ProcessAt(s, from) !in s.alive || s.active != ProcessAt(s, from) then s.(halted := true)
         else if s.preemption then done else SchedulerSpec.Leave(done, activates)
    ensures WithState(s, At(s), Finished).preemption == s.preemption
  {}

  lemma StartIs(s: Sched)
    ensures StartOk(s)
       <==> !s.preemption && At(s) == |s.tasks| && s.bootState == Running && s.active == BOOTSTRAP_PROCESS
            && s.tasks != [] && AllReady(s)
    ensures SchedulerSpec.Start(s)
         == if StartOk(s) then s.(preemption := true, bootFrame := false, faults := 0) else s
    ensures At(s) == |s.tasks| ==> StateAt(s, At(s)) == s.bootState
  {}

  lemma StopIs(s: Sched)
    ensures SchedulerSpec.Stop(s)
         == if s.preemption && At(s) == |s.tasks| && s.bootState == Running && s.active == BOOTSTRAP_PROCESS
            then s.(preemption := false, bootFrame := false) else s
    ensures At(s) == |s.tasks| ==> StateAt(s, At(s)) == s.bootState
  {}

  lemma GiveUpIs(s: Sched, state: TaskState, activates: bool)
    ensures var paused := WithState(s, At(s), state);
      var next := Select(paused, Cooperative);
      && |paused.tasks| == |s.tasks| && next <= |s.tasks|
      && (GaveUp(s, state, activates) <==> activates && next < |s.tasks|)
      && SchedulerSpec.GiveUp(s, state, activates)
         == if next == |s.tasks| || !activates then WithState(paused, At(s), Running) else SwitchTo(paused, next)
  {}

  lemma SlotAt(ts: seq<KernelTask>, i: nat)
    ensures Slot(ts, i) == if i < |ts| then ts[i] else null
  {}

  lemma ScanStep(s: Sched, from: nat, kind: Kind, c: nat, left: nat)
    requires c < |s.tasks| && 0 < left
    ensures Scan(s, from, kind, c, left)
         == if c != from && Eligible(s, c, kind) then c else Scan(s, from, kind, Next(|s.tasks|, c), left - 1)
  {}

  lemma ScanEnd(s: Sched, from: nat, kind: Kind, c: nat)
    requires c < |s.tasks|
    ensures Scan(s, from, kind, c, 0) == |s.tasks|
  {}
}
