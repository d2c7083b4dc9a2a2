/**
 The scheduler over a registry of tasks in creation order: cooperative yield, block, wake,
 exit and finish, and the preemptive timer tick. What no run of them can break, and how
 long a ready task can wait. The linked registry is in module Scheduler.
 */
module SchedulerSpec {
  import opened Machine

  const BOOTSTRAP_ID: nat := 0
  const BOOTSTRAP_PROCESS: nat := 0
  const POLICY_LIMIT: nat := 64
  const LAST_ID: nat := U64_LIMIT - 1

  datatype TaskState = Ready | Running | Finished | Blocked
  datatype Kind = Cooperative | Preemptive

  /** `frameOk`: the saved interrupt frame is one the kernel would resume. */
  datatype Task = Task(id: nat, process: nat, state: TaskState, kind: Kind, frameOk: bool)

  /**
   `current` is a task id, BOOTSTRAP_ID for the bootstrap task, which is in no registry.
   `alive` are the live processes and `active` the one whose address space is loaded.
   `halted` is x86_64_halt_forever.
   */
  datatype Sched = Sched(
    tasks: seq<Task>, current: nat, nextId: nat, bootState: TaskState, bootFrame: bool,
    preemption: bool, faults: nat, alive: set<nat>, active: nat, halted: bool)

  const INITIAL: Sched :=
    Sched([], BOOTSTRAP_ID, 1, Running, false, false, 0, {BOOTSTRAP_PROCESS}, BOOTSTRAP_PROCESS, false)

  // ---------------------------------------------------------------- lookup

  /** The position of task `id`; |ts| when it is not registered, as for the bootstrap task. */
  function IndexOf(ts: seq<Task>, id: nat, i: nat): (k: nat)
    requires i <= |ts|
    ensures i <= k <= |ts|
    ensures k < |ts| ==> ts[k].id == id
    ensures forall j :: i <= j < k ==> ts[j].id != id
    decreases |ts| - i
  {
    if i == |ts| || ts[i].id == id then i else IndexOf(ts, id, i + 1)
  }

  function At(s: Sched): (k: nat)
    ensures k <= |s.tasks|
  {
    IndexOf(s.tasks, s.current, 0)
  }

  function StateAt(s: Sched, i: nat): TaskState {
    if i < |s.tasks| then s.tasks[i].state else s.bootState
  }

  function ProcessAt(s: Sched, i: nat): nat {
    if i < |s.tasks| then s.tasks[i].process else BOOTSTRAP_PROCESS
  }

  function IdAt(s: Sched, i: nat): nat {
    if i < |s.tasks| then s.tasks[i].id else BOOTSTRAP_ID
  }

  function WithState(s: Sched, i: nat, state: TaskState): Sched {
    if i < |s.tasks| then s.(tasks := s.tasks[i := s.tasks[i].(state := state)]) else s.(bootState := state)
  }

  /** The CPU goes to the task at `i` (or the bootstrap task), with its process active. */
  function SwitchTo(s: Sched, i: nat): Sched {
    WithState(s, i, Running).(current := IdAt(s, i), active := ProcessAt(s, i))
  }

  // ------------------------------------------------------------- selection

  predicate Eligible(s: Sched, i: nat, kind: Kind)
    requires i < |s.tasks|
  {
    var t := s.tasks[i];
    && t.state == Ready && t.kind == kind && t.process in s.alive
    && (kind == Preemptive ==> t.frameOk)
  }

  function Next(n: nat, i: nat): (j: nat)
    requires 0 < n
    ensures j < n
  {
    if i + 1 < n then i + 1 else 0
  }

  /** Look at `left` candidates from `c` on, in a circle; |tasks| when none will do. */
  function Scan(s: Sched, from: nat, kind: Kind, c: nat, left: nat): (k: nat)
    requires c < |s.tasks|
    ensures k <= |s.tasks|
    ensures k < |s.tasks| ==> k != from && Eligible(s, k, kind)
    decreases left
  {
    if left == 0 then |s.tasks|
    else if c != from && Eligible(s, c, kind) then c
    else Scan(s, from, kind, Next(|s.tasks|, c), left - 1)
  }

  /** The next eligible task after the current one in registry order, wrapping around. */
  function Select(s: Sched, kind: Kind): (k: nat)
    ensures k <= |s.tasks|
    ensures k < |s.tasks| ==> k != At(s) && Eligible(s, k, kind)
  {
    if s.tasks == [] then 0
    else Scan(s, At(s), kind, if At(s) < |s.tasks| then Next(|s.tasks|, At(s)) else 0, |s.tasks|)
  }

  // ------------------------------------------------------------- operations

  function Fault(s: Sched): Sched {
    s.(preemption := false, faults := s.faults + 1)
  }

  /** task_create_internal; `ok` is whether memory and a frame could be prepared. */
  predicate CreateOk(s: Sched, process: nat, ok: bool) {
    !s.preemption && process in s.alive && s.nextId != LAST_ID && |s.tasks| < POLICY_LIMIT && ok
  }

  function Create(s: Sched, process: nat, kind: Kind, ok: bool): Sched {
    if !CreateOk(s, process, ok) then s
    else s.(tasks := s.tasks + [Task(s.nextId, process, Ready, kind, true)], nextId := s.nextId + 1)
  }

  /** The current task steps aside into `state`, unless there is nobody to run instead. */
  function GiveUp(s: Sched, state: TaskState, activates: bool): Sched {
    var from := At(s);
    var paused := WithState(s, from, state);
    var next := Select(paused, Cooperative);
    if next == |s.tasks| || !activates then WithState(paused, from, Running) else SwitchTo(paused, next)
  }

  predicate GaveUp(s: Sched, state: TaskState, activates: bool) {
    activates && Select(WithState(s, At(s), state), Cooperative) < |s.tasks|
  }

  /** task_yield; `activates` is whether the chosen process can be activated. */
  function Yield(s: Sched, activates: bool): Sched {
    if s.preemption then s else GiveUp(s, Ready, activates)
  }

  /** task_block_current: refused, with nothing changed, when there is nobody to run instead. */
  function Block(s: Sched, activates: bool): Sched {
    var from := At(s);
    if s.preemption || from == |s.tasks| || s.tasks[from].kind != Cooperative then s
    else GiveUp(s, Blocked, activates)
  }

  predicate Wakes(s: Sched, t: Task, process: nat) {
    process in s.alive && t.process == process && t.kind == Cooperative && t.state == Blocked
  }

  /** Some task before position `k` is woken. */
  ghost predicate WakesAny(s: Sched, process: nat, k: nat)
    requires k <= |s.tasks|
  {
    exists i :: 0 <= i < k && Wakes(s, s.tasks[i], process)
  }

  /** task_wake_process. */
  function Wake(s: Sched, process: nat): (r: Sched)
    ensures |r.tasks| == |s.tasks|
  {
    s.(tasks := seq(|s.tasks|, i requires 0 <= i < |s.tasks| =>
         if Wakes(s, s.tasks[i], process) then s.tasks[i].(state := Ready) else s.tasks[i]))
  }

  /** Give the CPU away for good: to the next cooperative task, else to the bootstrap task. */
  function Leave(s: Sched, activates: bool): Sched {
    var next := Select(s, Cooperative);
    if ProcessAt(s, next) in s.alive && activates then SwitchTo(s, next) else s.(halted := true)
  }

  /** task_finish_current: a preempted task only stops, and waits for the tick to leave it. */
  function Finish(s: Sched, activates: bool): Sched {
    var from := At(s);
    if from == |s.tasks| || ProcessAt(s, from) !in s.alive || s.active != ProcessAt(s, from) then s.(halted := true)
    else
      var done := WithState(s, from, Finished);
      if s.preemption then done else Leave(done, activates)
  }

  /** task_exit_current_process; `cleaned` is whether the process could be marked finished. */
  function Exit(s: Sched, activates: bool, cleaned: bool): Sched {
    var from := At(s);
    if s.preemption || from == |s.tasks| || s.tasks[from].kind != Cooperative || ProcessAt(s, from) !in s.alive then
      s.(halted := true)
    else
      var p := ProcessAt(s, from);
      var left := Leave(WithState(s, from, Finished), activates);
      if left.halted then left
      else if p == BOOTSTRAP_PROCESS || left.active == p || !cleaned then WithState(s, from, Finished).(halted := true)
      else left.(alive := s.alive - {p})
  }

  ghost predicate StartOk(s: Sched) {
    && !s.preemption && At(s) == |s.tasks| && s.bootState == Running && s.active == BOOTSTRAP_PROCESS
    && s.tasks != [] && AllReady(s)
  }

  /** Every registered task is one the preemptive scheduler could pick. */
  ghost predicate AllReady(s: Sched) {
    forall i :: 0 <= i < |s.tasks| ==> Eligible(s, i, Preemptive)
  }

  ghost function Start(s: Sched): Sched {
    if StartOk(s) then s.(preemption := true, bootFrame := false, faults := 0) else s
  }

  function Stop(s: Sched): Sched {
    if s.preemption && At(s) == |s.tasks| && s.bootState == Running && s.active == BOOTSTRAP_PROCESS
    then s.(preemption := false, bootFrame := false) else s
  }

  /** The interrupted task gives up the CPU; None is a fault that leaves it as it was. */
  function Interrupt(s: Sched, frameOk: bool): Option<Sched> {
    var from := At(s);
    if ProcessAt(s, from) !in s.alive || s.active != ProcessAt(s, from) then None
    else if from == |s.tasks| then Some(s.(bootFrame := true, bootState := Ready))
    else if s.tasks[from].kind != Preemptive || !frameOk then None
    else if s.tasks[from].state == Running || s.tasks[from].state == Finished then
      var state := if s.tasks[from].state == Running then Ready else Finished;
      Some(s.(tasks := s.tasks[from := s.tasks[from].(frameOk := true, state := state)]))
    else None
  }

  /** task_scheduler_tick; `frameOk` is whether the interrupted frame is valid for its task. */
  function Tick(s: Sched, frameOk: bool, activates: bool): Sched {
    if !s.preemption then s
    else
      match Interrupt(s, frameOk)
      case None => Fault(s)
      case Some(paused) =>
        var from := At(s);
        var next := Select(paused, Preemptive);
        if next == |s.tasks| && StateAt(paused, from) != Finished then WithState(paused, from, Running)
        else if next == |s.tasks| && !paused.bootFrame then Fault(paused)
        else if ProcessAt(paused, next) !in s.alive || !activates then
          Fault(if StateAt(paused, from) == Ready then WithState(paused, from, Running) else paused)
        else SwitchTo(paused, next)
  }

  /** The tasks that survive reaping `process`. */
  function Others(ts: seq<Task>, process: nat): (r: seq<Task>)
    ensures forall i :: 0 <= i < |r| ==> r[i] in ts && r[i].process != process
  {
    if ts == [] then []
    else Others(ts[..|ts| - 1], process) + if ts[|ts| - 1].process == process then [] else [ts[|ts| - 1]]
  }

  ghost predicate AllReapable(s: Sched, process: nat, k: nat)
    requires k <= |s.tasks|
  {
    forall i :: 0 <= i < k && s.tasks[i].process == process ==> s.tasks[i].state == Finished && s.tasks[i].id != s.current
  }

  ghost predicate OwnsAny(s: Sched, process: nat, k: nat)
    requires k <= |s.tasks|
  {
    exists i :: 0 <= i < k && s.tasks[i].process == process
  }

  ghost predicate ReapOk(s: Sched, process: nat) {
    !s.preemption && process != s.active && process !in s.alive && AllReapable(s, process, |s.tasks|)
  }

  /** task_reap_finished_process. */
  ghost function Reap(s: Sched, process: nat): Sched {
    if ReapOk(s, process) then s.(tasks := Others(s.tasks, process)) else s
  }

  ghost predicate AllFinished(s: Sched) {
    forall i :: 0 <= i < |s.tasks| ==> s.tasks[i].state == Finished
  }

  ghost predicate CleanupOk(s: Sched) {
    && !s.preemption && At(s) == |s.tasks| && s.bootState == Running && s.active == BOOTSTRAP_PROCESS
    && AllFinished(s)
  }

  /** task_cleanup_finished. */
  ghost function Cleanup(s: Sched): Sched {
    if CleanupOk(s) then s.(tasks := []) else s
  }

  // ------------------------------------------------------------------- runs

  datatype Call =
    | CreateCall(process: nat, kind: Kind, ok: bool)
    | YieldCall(activates: bool)
    | BlockCall(activates: bool)
    | WakeCall(process: nat)
    | FinishCall(activates: bool)
    | ExitCall(activates: bool, cleaned: bool)
    | StartCall
    | StopCall
    | ReapCall(process: nat)
    | CleanupCall
    | SpawnCall(process: nat)
    | TickCall(frameOk: bool, activates: bool)

  /** Some code is executing: a finished task only halts until the next tick. */
  predicate Executing(s: Sched) {
    !s.halted && StateAt(s, At(s)) == Running
  }

  /** Ticks and wakes come at any time; every other call is made by the code that is executing. */
  ghost function Step(s: Sched, call: Call): Sched {
    if s.halted then s
    else if call.TickCall? then Tick(s, call.frameOk, call.activates)
    else if call.WakeCall? then Wake(s, call.process)
    else if !Executing(s) then s
    else
      match call
      case CreateCall(process, kind, ok) => Create(s, process, kind, ok)
      case YieldCall(activates) => Yield(s, activates)
      case BlockCall(activates) => Block(s, activates)
      case FinishCall(activates) => Finish(s, activates)
      case ExitCall(activates, cleaned) => Exit(s, activates, cleaned)
      case StartCall => Start(s)
      case StopCall => Stop(s)
      case ReapCall(process) => Reap(s, process)
      case CleanupCall => Cleanup(s)
      case SpawnCall(process) => s.(alive := s.alive + {process})
      case _ => s
  }

  ghost function Run(s: Sched, calls: seq<Call>): Sched
    decreases |calls|
  {
    if calls == [] then s else Run(Step(s, calls[0]), calls[1..])
  }

  // -------------------------------------------------------------- invariant

  ghost predicate IdsOk(ts: seq<Task>, nextId: nat) {
    && 0 < nextId
    && (forall i :: 0 <= i < |ts| ==> 0 < ts[i].id < nextId)
    && forall i, j :: 0 <= i < j < |ts| ==> ts[i].id != ts[j].id
  }

  /** What holds of every registered task between any two steps. */
  ghost predicate TaskOk(s: Sched, t: Task) {
    && (t.state == Running ==> t.id == s.current)
    && (t.id == s.current ==> (t.state == Running || t.state == Finished) && t.process == s.active)
    && (t.state == Blocked ==> t.kind == Cooperative)
    && (s.preemption ==>
          && t.kind == Preemptive
          && (t.state == Ready ==> t.frameOk)
          && (t.state != Finished ==> t.process in s.alive))
  }

  /** At most one task runs and it is the current one; the processes on the CPU are live. */
  ghost predicate Safe(s: Sched) {
    && IdsOk(s.tasks, s.nextId)
    && (forall i :: 0 <= i < |s.tasks| ==> TaskOk(s, s.tasks[i]))
    && (s.current == BOOTSTRAP_ID || At(s) < |s.tasks|)
    && s.bootState == (if s.current == BOOTSTRAP_ID then Running else Ready)
    && (s.current == BOOTSTRAP_ID ==> s.active == BOOTSTRAP_PROCESS)
    && BOOTSTRAP_PROCESS in s.alive && s.active in s.alive
    && (s.preemption && s.current != BOOTSTRAP_ID ==> s.bootFrame)
  }

  lemma {:induction false} IndexUnique(ts: seq<Task>, nextId: nat, k: nat)
    requires IdsOk(ts, nextId) && k < |ts|
    ensures IndexOf(ts, ts[k].id, 0) == k
  {}

  lemma CurrentIndex(s: Sched)
    requires Safe(s)
    ensures At(s) == |s.tasks| <==> s.current == BOOTSTRAP_ID
    ensures IdAt(s, At(s)) == s.current && ProcessAt(s, At(s)) == s.active
  {}

  /** Pausing the current task and giving the CPU to a ready live one keeps everything. */
  lemma SwitchKeeps(s: Sched, state: TaskState, next: nat)
    requires Safe(s) && (state == Running || state == Ready || state == Finished || state == Blocked)
    requires At(s) == |s.tasks| ==> state == Ready
    requires state == Blocked ==> s.tasks[At(s)].kind == Cooperative
    requires s.preemption && state == Ready && At(s) < |s.tasks| ==> s.tasks[At(s)].frameOk
    requires s.preemption ==> s.bootFrame
    requires state != Running && next <= |s.tasks| && next != At(s) && ProcessAt(s, next) in s.alive
    requires next < |s.tasks| ==> s.tasks[next].state == Ready
    ensures Safe(SwitchTo(WithState(s, At(s), state), next))
  {
    CurrentIndex(s);
    var r := SwitchTo(WithState(s, At(s), state), next);
    forall i | 0 <= i < |r.tasks| ensures r.tasks[i].id == s.tasks[i].id && TaskOk(r, r.tasks[i]) {
      assert TaskOk(s, s.tasks[i]);
    }
    if next < |r.tasks| {
      IndexUnique(r.tasks, r.nextId, next);
    }
  }

  lemma ResumeSame(s: Sched, state: TaskState)
    requires StateAt(s, At(s)) == Running
    ensures WithState(WithState(s, At(s), state), At(s), Running) == s
  {
    if At(s) < |s.tasks| {
      assert s.tasks[At(s) := s.tasks[At(s)].(state := state)][At(s) := s.tasks[At(s)]] == s.tasks;
    }
  }

  lemma {:induction false} SameIndex(ts: seq<Task>, us: seq<Task>, id: nat, i: nat)
    requires |ts| == |us| && i <= |ts| && forall j :: 0 <= j < |ts| ==> ts[j].id == us[j].id
    ensures IndexOf(ts, id, i) == IndexOf(us, id, i)
    decreases |ts| - i
  {
    if i < |ts| {
      SameIndex(ts, us, id, i + 1);
    }
  }

  lemma PausedIndex(s: Sched, state: TaskState)
    ensures At(WithState(s, At(s), state)) == At(s)
  {
    SameIndex(s.tasks, WithState(s, At(s), state).tasks, s.current, 0);
  }

  lemma YieldKeeps(s: Sched, activates: bool)
    requires Safe(s) && Executing(s)
    ensures Safe(Yield(s, activates))
  {
    if !s.preemption {
      var paused := WithState(s, At(s), Ready);
      var next := Select(paused, Cooperative);
      PausedIndex(s, Ready);
      ResumeSame(s, Ready);
      if next < |s.tasks| && activates {
        SwitchKeeps(s, Ready, next);
      }
    }
  }

  lemma BlockKeeps(s: Sched, activates: bool)
    requires Safe(s) && Executing(s)
    ensures Safe(Block(s, activates))
  {
    if Block(s, activates) != s {
      var paused := WithState(s, At(s), Blocked);
      var next := Select(paused, Cooperative);
      PausedIndex(s, Blocked);
      ResumeSame(s, Blocked);
      SwitchKeeps(s, Blocked, next);
    }
  }

  lemma FinishedKeeps(s: Sched)
    requires Safe(s) && At(s) < |s.tasks|
    ensures Safe(WithState(s, At(s), Finished))
  {
    var r := WithState(s, At(s), Finished);
    PausedIndex(s, Finished);
    forall i | 0 <= i < |r.tasks| ensures r.tasks[i].id == s.tasks[i].id && TaskOk(r, r.tasks[i]) {
      assert TaskOk(s, s.tasks[i]);
    }
  }

  lemma LeaveKeeps(s: Sched, activates: bool)
    requires Safe(s) && At(s) < |s.tasks| && !s.preemption
    ensures var left := Leave(WithState(s, At(s), Finished), activates);
      Safe(left) && left.alive == s.alive && left.preemption == s.preemption
  {
    var done := WithState(s, At(s), Finished);
    FinishedKeeps(s);
    PausedIndex(s, Finished);
    var next := Select(done, Cooperative);
    if ProcessAt(done, next) in s.alive && activates {
      SwitchKeeps(s, Finished, next);
    }
  }

  lemma FinishKeeps(s: Sched, activates: bool)
    requires Safe(s) && Executing(s)
    ensures Safe(Finish(s, activates))
  {
    if At(s) < |s.tasks| {
      FinishedKeeps(s);
      if !s.preemption {
        LeaveKeeps(s, activates);
      }
    }
  }

  /** A process that is not on the CPU may go. */
  lemma BuryKeeps(s: Sched, process: nat)
    requires Safe(s) && !s.preemption && process != BOOTSTRAP_PROCESS && process != s.active
    ensures Safe(s.(alive := s.alive - {process}))
  {
    var r := s.(alive := s.alive - {process});
    forall i | 0 <= i < |r.tasks| ensures TaskOk(r, r.tasks[i]) {
      assert TaskOk(s, s.tasks[i]);
    }
  }

  lemma HaltKeeps(s: Sched)
    requires Safe(s)
    ensures Safe(s.(halted := true))
  {
    assert forall i :: 0 <= i < |s.tasks| ==> TaskOk(s.(halted := true), s.tasks[i]) by {
      assert forall i :: 0 <= i < |s.tasks| ==> TaskOk(s, s.tasks[i]);
    }
  }

  lemma ExitKeeps(s: Sched, activates: bool, cleaned: bool)
    requires Safe(s) && Executing(s)
    ensures Safe(Exit(s, activates, cleaned))
  {
    hide Safe, Leave, At, StateAt, WithState;
    HaltKeeps(s);
    if At(s) < |s.tasks| && !s.preemption {
      FinishedKeeps(s);
      LeaveKeeps(s, activates);
      HaltKeeps(WithState(s, At(s), Finished));
      var left := Leave(WithState(s, At(s), Finished), activates);
      var p := ProcessAt(s, At(s));
      if !left.halted && p != BOOTSTRAP_PROCESS && left.active != p {
        BuryKeeps(left, p);
      }
    }
  }

  lemma WakeKeeps(s: Sched, process: nat)
    requires Safe(s)
    ensures Safe(Wake(s, process))
  {
    var r := Wake(s, process);
    SameIndex(s.tasks, r.tasks, s.current, 0);
    forall i | 0 <= i < |r.tasks| ensures r.tasks[i].id == s.tasks[i].id && TaskOk(r, r.tasks[i]) {
      assert TaskOk(s, s.tasks[i]);
    }
  }

  lemma CreateKeeps(s: Sched, process: nat, kind: Kind, ok: bool)
    requires Safe(s) && Executing(s)
    ensures Safe(Create(s, process, kind, ok))
  {
    var r := Create(s, process, kind, ok);
    if r != s {
      forall i | 0 <= i < |r.tasks| ensures TaskOk(r, r.tasks[i]) {
        assert i < |s.tasks| ==> r.tasks[i] == s.tasks[i] && TaskOk(s, s.tasks[i]);
        assert At(s) < |s.tasks| ==> s.tasks[At(s)].id == s.current;
      }
      AppendIndex(s.tasks, r.tasks[|s.tasks|], s.current, 0);
    }
  }

  lemma {:induction false} AppendIndex(ts: seq<Task>, t: Task, id: nat, i: nat)
    requires i <= |ts| && t.id != id
    ensures IndexOf(ts + [t], id, i) == if IndexOf(ts, id, i) < |ts| then IndexOf(ts, id, i) else |ts| + 1
    decreases |ts| - i
  {
    if i < |ts| {
      AppendIndex(ts, t, id, i + 1);
    }
  }

  lemma StartKeeps(s: Sched)
    requires Safe(s)
    ensures Safe(Start(s))
  {
    if StartOk(s) {
      forall i | 0 <= i < |s.tasks| ensures TaskOk(Start(s), s.tasks[i]) {
        assert TaskOk(s, s.tasks[i]) && Eligible(s, i, Preemptive);
      }
    }
  }

  lemma LowerKeeps(s: Sched, faults: nat, bootFrame: bool)
    requires Safe(s)
    ensures Safe(s.(preemption := false, faults := faults, bootFrame := bootFrame))
  {
    var r := s.(preemption := false, faults := faults, bootFrame := bootFrame);
    forall i | 0 <= i < |r.tasks| ensures TaskOk(r, r.tasks[i]) {
      assert TaskOk(s, s.tasks[i]);
    }
  }

  lemma {:induction false} OthersExact(ts: seq<Task>, process: nat, nextId: nat)
    requires IdsOk(ts, nextId)
    ensures IdsOk(Others(ts, process), nextId)
    ensures forall t :: t in Others(ts, process) <==> t in ts && t.process != process
  {
    if ts != [] {
      var init, last := ts[..|ts| - 1], ts[|ts| - 1];
      OthersExact(init, process, nextId);
      assert ts == init + [last];
      var r := Others(init, process);
      forall i | 0 <= i < |r| ensures r[i].id != last.id {
        assert r[i] in init;
      }
    }
  }

  lemma ReapKeeps(s: Sched, process: nat)
    requires Safe(s)
    ensures Safe(Reap(s, process))
  {
    var r := Reap(s, process);
    if r != s {
      OthersExact(s.tasks, process, s.nextId);
      forall i | 0 <= i < |r.tasks| ensures TaskOk(r, r.tasks[i]) {
        assert r.tasks[i] in s.tasks;
        var j :| 0 <= j < |s.tasks| && s.tasks[j] == r.tasks[i];
        assert TaskOk(s, s.tasks[j]);
      }
      if s.current != BOOTSTRAP_ID {
        var t := s.tasks[At(s)];
        assert t in r.tasks;
      }
    }
  }

  // ------------------------------------------------------- circular selection

  /** How far `t` is ahead of `c` going round a circle of `n`. */
  function Gap(n: nat, c: nat, t: nat): nat
    requires c < n && t < n
  {
    if c <= t then t - c else t + n - c
  }

  /** How many steps of the selection `t` is away from the task at `from`. */
  function Distance(n: nat, from: nat, t: nat): nat
    requires t < n
  {
    1 + Gap(n, if from < n then Next(n, from) else 0, t)
  }

  lemma {:induction false} ScanFinds(s: Sched, from: nat, kind: Kind, c: nat, left: nat, t: nat)
    requires c < |s.tasks| && t < |s.tasks| && t != from && Eligible(s, t, kind)
    requires Gap(|s.tasks|, c, t) < left <= |s.tasks|
    ensures var k := Scan(s, from, kind, c, left);
      k < |s.tasks| && Gap(|s.tasks|, c, k) <= Gap(|s.tasks|, c, t)
    decreases left
  {
    if !(c != from && Eligible(s, c, kind)) {
      ScanFinds(s, from, kind, Next(|s.tasks|, c), left - 1, t);
    }
  }

  /** Selection is fair: it never passes over an eligible task for one farther away. */
  lemma SelectNearest(s: Sched, kind: Kind, t: nat)
    requires t < |s.tasks| && t != At(s) && Eligible(s, t, kind)
    ensures Select(s, kind) < |s.tasks|
    ensures Distance(|s.tasks|, At(s), Select(s, kind)) <= Distance(|s.tasks|, At(s), t)
  {
    ScanFinds(s, At(s), kind, if At(s) < |s.tasks| then Next(|s.tasks|, At(s)) else 0, |s.tasks|, t);
  }

  /** Nobody is selected exactly when nobody else is eligible. */
  lemma SelectNone(s: Sched, kind: Kind)
    ensures Select(s, kind) == |s.tasks| <==> forall t :: 0 <= t < |s.tasks| && t != At(s) ==> !Eligible(s, t, kind)
  {
    forall t | 0 <= t < |s.tasks| && t != At(s) && Eligible(s, t, kind) ensures Select(s, kind) < |s.tasks| {
      SelectNearest(s, kind, t);
    }
  }

  // ----------------------------------------------------- handing the CPU over

  ghost predicate OtherEligible(s: Sched) {
    exists t :: 0 <= t < |s.tasks| && t != At(s) && Eligible(s, t, Cooperative)
  }

  /** The current task may block, and there is another task to run that can be activated. */
  ghost predicate BlocksNow(s: Sched, activates: bool) {
    && !s.preemption && At(s) < |s.tasks| && s.tasks[At(s)].kind == Cooperative
    && activates && OtherEligible(s)
  }

  /** `k` is the eligible task nearest after the current one; |tasks| when there is none. */
  ghost predicate Nearest(s: Sched, k: nat) {
    && k <= |s.tasks| && (k < |s.tasks| <==> OtherEligible(s))
    && (k < |s.tasks| ==> k != At(s) && Eligible(s, k, Cooperative))
    && forall t :: 0 <= t < |s.tasks| && t != At(s) && Eligible(s, t, Cooperative) ==>
         Distance(|s.tasks|, At(s), k) <= Distance(|s.tasks|, At(s), t)
  }

  /** In `r` the task at `k` runs with its process active, the one that ran is in `state`, and nothing else changed. */
  ghost predicate HandedOver(s: Sched, r: Sched, state: TaskState, k: nat) {
    && |r.tasks| == |s.tasks| && r.current == IdAt(s, k) && r.active == ProcessAt(s, k)
    && StateAt(r, k) == Running && (k != At(s) ==> StateAt(r, At(s)) == state)
    && (forall t :: 0 <= t < |s.tasks| ==> r.tasks[t].(state := s.tasks[t].state) == s.tasks[t])
    && (forall t :: 0 <= t <= |s.tasks| && t != At(s) && t != k ==> StateAt(r, t) == StateAt(s, t))
  }

  /** Who else may run does not depend on what the current task becomes. */
  lemma PausedEligible(s: Sched, state: TaskState)
    ensures var paused := WithState(s, At(s), state);
      && |paused.tasks| == |s.tasks| && Select(paused, Cooperative) <= |s.tasks|
      && (Select(paused, Cooperative) < |s.tasks| ==> Eligible(paused, Select(paused, Cooperative), Cooperative))
      && forall t :: 0 <= t < |s.tasks| && t != At(s) ==> (Eligible(paused, t, Cooperative) <==> Eligible(s, t, Cooperative))
  {
    var paused := WithState(s, At(s), state);
    assert forall t :: 0 <= t < |s.tasks| && t != At(s) ==> paused.tasks[t] == s.tasks[t];
    hide At, Select;
  }

  lemma NearestSelected(s: Sched, state: TaskState)
    ensures Nearest(s, Select(WithState(s, At(s), state), Cooperative))
  {
    hide At, Select, WithState, Eligible;
    var paused := WithState(s, At(s), state);
    var k := Select(paused, Cooperative);
    PausedIndex(s, state);
    SelectNone(paused, Cooperative);
    PausedEligible(s, state);
    forall t | 0 <= t < |s.tasks| && t != At(s) && Eligible(s, t, Cooperative)
      ensures k < |s.tasks| && Distance(|s.tasks|, At(s), k) <= Distance(|s.tasks|, At(s), t)
    {
      SelectNearest(paused, Cooperative, t);
    }
  }

  /**
   Yield and block hand the CPU to the nearest eligible task; with nobody to hand it to, or its
   process not to be activated, nothing changes.
   */
  lemma GiveUpMeaning(s: Sched, state: TaskState, activates: bool)
    requires Executing(s)
    ensures var r := GiveUp(s, state, activates);
      if activates && OtherEligible(s) then exists k: nat :: Nearest(s, k) && HandedOver(s, r, state, k) else r == s
  {
    NearestSelected(s, state);
    var k := Select(WithState(s, At(s), state), Cooperative);
    ResumeSame(s, state);
    SwitchHandsOver(s, state, k);
    hide At, Select, WithState, SwitchTo, Eligible, HandedOver;
  }

  lemma SwitchHandsOver(s: Sched, state: TaskState, k: nat)
    requires k <= |s.tasks|
    ensures HandedOver(s, SwitchTo(WithState(s, At(s), state), k), state, k)
  {
    hide At, SwitchTo, WithState;
    SwitchTasks(s, At(s), state, k);
  }

  lemma SwitchTasks(s: Sched, i: nat, state: TaskState, k: nat)
    requires k <= |s.tasks|
    ensures var r := SwitchTo(WithState(s, i, state), k);
      && |r.tasks| == |s.tasks| && r.current == IdAt(s, k) && r.active == ProcessAt(s, k)
      && r.bootState == (if k == |s.tasks| then Running else if i < |s.tasks| then s.bootState else state)
      && forall t :: 0 <= t < |s.tasks| ==>
           r.tasks[t] == s.tasks[t].(state := if t == k then Running else if t == i then state else s.tasks[t].state)
  {
    var paused := WithState(s, i, state);
    var r := SwitchTo(paused, k);
    forall t | 0 <= t < |s.tasks|
      ensures r.tasks[t] == s.tasks[t].(state := if t == k then Running else if t == i then state else s.tasks[t].state)
    {
      assert paused.tasks[t] == if t == i then s.tasks[t].(state := state) else s.tasks[t];
    }
  }

  lemma NearestUnique(s: Sched, j: nat, k: nat)
    requires Nearest(s, j) && Nearest(s, k)
    ensures j == k
  {
    hide At, Eligible;
    assert j < |s.tasks| <==> k < |s.tasks|;
    if j < |s.tasks| {
      assert Distance(|s.tasks|, At(s), j) == Distance(|s.tasks|, At(s), k);
    }
  }

  /** The task that would run next belongs to the process that runs now. */
  ghost predicate Succeeds(s: Sched) {
    exists k: nat :: Nearest(s, k) && k < |s.tasks| && s.tasks[k].process == s.active
  }

  /** Leaving a process that cannot be left. */
  ghost predicate ExitHalts(s: Sched, activates: bool, cleaned: bool) {
    || s.preemption || At(s) == |s.tasks| || s.tasks[At(s)].kind != Cooperative
    || !activates || !cleaned || s.active == BOOTSTRAP_PROCESS || Succeeds(s)
  }

  /**
   An exit halts the machine exactly when it is not for the running code to make, or the next
   process cannot be activated, or the old one not be cleaned up; or when another task of the
   same process is next, because the CPU changes hands before the process is marked finished.
   */
  lemma ExitHaltsExactly(s: Sched, activates: bool, cleaned: bool)
    requires Safe(s) && Executing(s)
    ensures Exit(s, activates, cleaned).halted <==> ExitHalts(s, activates, cleaned)
  {
    CurrentIndex(s);
    NearestSelected(s, Finished);
    var done := WithState(s, At(s), Finished);
    var k := Select(done, Cooperative);
    forall j: nat | Nearest(s, j) ensures j == k {
      NearestUnique(s, j, k);
    }
    assert k < |s.tasks| ==> Eligible(s, k, Cooperative) && ProcessAt(done, k) == s.tasks[k].process;
    hide At, Select, WithState, Nearest, Eligible, TaskOk, IdsOk;
    assert SwitchTo(done, k).active == ProcessAt(done, k);
  }

  const TWO_OF_ONE: seq<Call> :=
    [SpawnCall(5), CreateCall(5, Cooperative, true), CreateCall(5, Cooperative, true), YieldCall(true)]

  lemma RunTwoOfOne()
    ensures Run(INITIAL, TWO_OF_ONE)
         == Sched([Task(1, 5, Running, Cooperative, true), Task(2, 5, Ready, Cooperative, true)],
                  1, 3, Ready, false, false, 0, {0, 5}, 5, false)
  {
    var one, two := Task(1, 5, Ready, Cooperative, true), Task(2, 5, Ready, Cooperative, true);
    var s1 := INITIAL.(alive := {0, 5});
    assert {BOOTSTRAP_PROCESS} + {5} == {0, 5};
    assert Step(INITIAL, TWO_OF_ONE[0]) == s1;
    var s2 := s1.(tasks := [one], nextId := 2);
    assert Step(s1, TWO_OF_ONE[1]) == s2;
    var s3 := s2.(tasks := [one, two], nextId := 3);
    assert Step(s2, TWO_OF_ONE[2]) == s3;
    var s4 := s3.(tasks := [one.(state := Running), two], current := 1, active := 5, bootState := Ready);
    YieldToFirst(s3, s4);
    hide Step;
    var c := TWO_OF_ONE;
    assert c[1..][1..] == c[2..] && c[2..][1..] == c[3..] && c[3..][1..] == [];
    assert c[1..][0] == c[1] && c[2..][0] == c[2] && c[3..][0] == c[3];
    assert Run(s4, []) == s4;
    assert Run(s3, c[3..]) == Run(s4, c[3..][1..]);
    assert Run(s2, c[2..]) == Run(s3, c[2..][1..]);
    assert Run(s1, c[1..]) == Run(s2, c[1..][1..]);
  }

  lemma YieldToFirst(s: Sched, r: Sched)
    requires s == Sched([Task(1, 5, Ready, Cooperative, true), Task(2, 5, Ready, Cooperative, true)],
                        0, 3, Running, false, false, 0, {0, 5}, 0, false)
    requires r == s.(tasks := [s.tasks[0].(state := Running), s.tasks[1]], current := 1, active := 5, bootState := Ready)
    ensures Step(s, YieldCall(true)) == r
  {
    var paused := s.(bootState := Ready);
    assert At(s) == 2 == At(paused) && WithState(s, 2, Ready) == paused;
    assert Select(paused, Cooperative) == 0 by {
      assert Eligible(paused, 0, Cooperative);
    }
    assert SwitchTo(paused, 0) == r;
  }

  /** Two tasks of one process: the first to exit halts the machine. */
  lemma ExitCanHalt()
    ensures var s := Run(INITIAL, TWO_OF_ONE); Safe(s) && Executing(s) && Exit(s, true, true).halted
  {
    RunTwoOfOne();
    InitialSafe();
    RunKeeps(INITIAL, TWO_OF_ONE);
    var s := Run(INITIAL, TWO_OF_ONE);
    assert At(s) == 0 && Executing(s);
    assert Eligible(s, 1, Cooperative) && OtherEligible(s);
    assert Nearest(s, 1);
    hide Run, At, Nearest, Safe, Exit;
    ExitHaltsExactly(s, true, true);
  }

  /** A process that can be left: its task is finished, it is no longer alive, and the nearest eligible task or the bootstrap task runs. */
  lemma ExitMeaning(s: Sched, activates: bool, cleaned: bool)
    requires Safe(s) && Executing(s) && !ExitHalts(s, activates, cleaned)
    ensures var r := Exit(s, activates, cleaned);
      && !r.halted && r.alive == s.alive - {s.active} && r.active != s.active
      && exists k: nat :: Nearest(s, k) && HandedOver(s, r, Finished, k)
  {
    ExitHaltsExactly(s, activates, cleaned);
    CurrentIndex(s);
    NearestSelected(s, Finished);
    var k := Select(WithState(s, At(s), Finished), Cooperative);
    SwitchHandsOver(s, Finished, k);
    var left := SwitchTo(WithState(s, At(s), Finished), k);
    assert HandedOver(s, left.(alive := s.alive - {s.active}), Finished, k);
    hide At, Select, WithState, Eligible, Nearest, Safe;
  }

  /** A task that returns halts the machine exactly when it was not a task, or the next process cannot be activated. */
  lemma FinishHaltsExactly(s: Sched, activates: bool)
    requires Safe(s) && Executing(s)
    ensures Finish(s, activates).halted <==> At(s) == |s.tasks| || (!s.preemption && !activates)
  {
    CurrentIndex(s);
    NearestSelected(s, Finished);
    var k := Select(WithState(s, At(s), Finished), Cooperative);
    assert k < |s.tasks| ==> Eligible(s, k, Cooperative);
    hide At, Select, Eligible, Nearest, TaskOk, IdsOk;
  }

  /** The end of a task: under preemption it only stops, otherwise the nearest eligible or the bootstrap task runs. */
  lemma FinishMeaning(s: Sched, activates: bool)
    requires Safe(s) && Executing(s) && At(s) < |s.tasks| && (s.preemption || activates)
    ensures var r := Finish(s, activates);
      && !r.halted
      && if s.preemption then r == WithState(s, At(s), Finished) else exists k: nat :: Nearest(s, k) && HandedOver(s, r, Finished, k)
  {
    FinishHaltsExactly(s, activates);
    NearestSelected(s, Finished);
    var k := Select(WithState(s, At(s), Finished), Cooperative);
    SwitchHandsOver(s, Finished, k);
    hide At, Select, WithState, SwitchTo, Eligible, Nearest, HandedOver, Safe;
  }

  // ------------------------------------------------------------- the tick

  /** The interrupted context is saved; nothing else has happened yet. */
  function Saved(s: Sched): Sched {
    var from := At(s);
    if from == |s.tasks| then s.(bootFrame := true)
    else s.(tasks := s.tasks[from := s.tasks[from].(frameOk := true)])
  }

  lemma SavedKeeps(s: Sched)
    requires Safe(s)
    ensures Safe(Saved(s)) && At(Saved(s)) == At(s) && StateAt(Saved(s), At(s)) == StateAt(s, At(s))
    ensures |Saved(s).tasks| == |s.tasks|
  {
    var r := Saved(s);
    SameIndex(s.tasks, r.tasks, s.current, 0);
    forall i | 0 <= i < |r.tasks| ensures r.tasks[i].id == s.tasks[i].id && TaskOk(r, r.tasks[i]) {
      assert TaskOk(s, s.tasks[i]);
    }
  }

  lemma InterruptIs(s: Sched, frameOk: bool)
    requires Safe(s) && s.preemption
    ensures Interrupt(s, frameOk)
         == if s.current != BOOTSTRAP_ID && !frameOk then None
            else Some(WithState(Saved(s), At(s), if StateAt(s, At(s)) == Finished then Finished else Ready))
  {
    CurrentIndex(s);
    var from := At(s);
    if from < |s.tasks| {
      assert TaskOk(s, s.tasks[from]);
      var state := if s.tasks[from].state == Running then Ready else Finished;
      var saved := s.tasks[from].(frameOk := true);
      assert s.tasks[from := saved][from := saved.(state := state)] == s.tasks[from := saved.(state := state)];
    }
  }

  /** Under preemption, whoever is Ready is also eligible. */
  lemma ReadyIsEligible(s: Sched, t: nat)
    requires Safe(s) && s.preemption && t < |s.tasks|
    ensures Eligible(s, t, Preemptive) <==> s.tasks[t].state == Ready
  {
    assert TaskOk(s, s.tasks[t]);
  }

  /** The state a tick selects in: the context saved, the interrupted task Ready or Finished. */
  function Paused(s: Sched): Sched {
    WithState(Saved(s), At(s), if StateAt(s, At(s)) == Finished then Finished else Ready)
  }

  lemma PausedIs(s: Sched)
    requires Safe(s) && s.preemption
    ensures |Paused(s).tasks| == |s.tasks| && At(Paused(s)) == At(s)
    ensures forall t :: 0 <= t < |s.tasks| && t != At(s) ==> Paused(s).tasks[t] == s.tasks[t]
    ensures Paused(s).faults == s.faults && Paused(s).bootFrame == Saved(s).bootFrame
    ensures Saved(s).faults == s.faults && Saved(s).bootFrame && Saved(s).preemption
    ensures Paused(s).alive == s.alive
    ensures Select(Paused(s), Preemptive) == |s.tasks|
       <==> forall t :: 0 <= t < |s.tasks| && t != At(s) ==> s.tasks[t].state != Ready
  {
    SavedKeeps(s);
    PausedIndex(Saved(s), if StateAt(s, At(s)) == Finished then Finished else Ready);
    SelectNone(Paused(s), Preemptive);
    forall t | 0 <= t < |s.tasks| && t != At(s)
      ensures Eligible(Paused(s), t, Preemptive) <==> s.tasks[t].state == Ready
    {
      ReadyIsEligible(s, t);
    }
  }

  /** The tick, with everything a safe state rules out left out. */
  lemma TickIs(s: Sched, frameOk: bool, activates: bool)
    requires Safe(s) && s.preemption
    ensures var next := Select(Paused(s), Preemptive);
      Tick(s, frameOk, activates)
      == if s.current != BOOTSTRAP_ID && !frameOk then Fault(s)
         else if next == |s.tasks| && StateAt(s, At(s)) != Finished then Saved(s)
         else if !activates then Fault(if StateAt(s, At(s)) == Finished then Paused(s) else Saved(s))
         else SwitchTo(Paused(s), next)
  {
    CurrentIndex(s);
    InterruptIs(s, frameOk);
    SavedKeeps(s);
    PausedIs(s);
    var next := Select(Paused(s), Preemptive);
    assert next < |s.tasks| ==> Eligible(Paused(s), next, Preemptive);
    if StateAt(s, At(s)) != Finished {
      ResumeSame(Saved(s), Ready);
    }
    hide Interrupt, TaskOk, IdsOk, Select, Eligible;
  }

  /** Both ways a tick can give up, and the way it can succeed, are safe. */
  lemma PausedFaultKeeps(s: Sched)
    requires Safe(s)
    ensures Safe(Fault(s)) && Safe(Saved(s)) && Safe(Fault(Saved(s)))
    ensures StateAt(s, At(s)) == Finished ==> Safe(Fault(Paused(s)))
  {
    CurrentIndex(s);
    var finished := StateAt(s, At(s)) == Finished && At(s) < |s.tasks|;
    assert s.bootState != Finished;
    hide Safe, Saved, At, WithState, StateAt;
    FaultKeeps(s);
    SavedKeeps(s);
    FaultKeeps(Saved(s));
    if finished {
      FinishedKeeps(Saved(s));
      FaultKeeps(Paused(s));
    }
  }

  lemma FaultKeeps(s: Sched)
    requires Safe(s)
    ensures Safe(Fault(s))
  {
    LowerKeeps(s, s.faults + 1, s.bootFrame);
  }

  lemma PausedSwitchKeeps(s: Sched)
    requires Safe(s) && s.preemption
    requires Select(Paused(s), Preemptive) < |s.tasks| || StateAt(s, At(s)) == Finished
    ensures Safe(SwitchTo(Paused(s), Select(Paused(s), Preemptive)))
  {
    var next := Select(Paused(s), Preemptive);
    CurrentIndex(s);
    SavedKeeps(s);
    PausedIs(s);
    assert next < |s.tasks| ==> next != At(s) && Eligible(Paused(s), next, Preemptive);
    hide Select, TaskOk, IdsOk, SwitchTo;
    SwitchKeeps(Saved(s), if StateAt(s, At(s)) == Finished then Finished else Ready, next);
  }

  lemma TickKeeps(s: Sched, frameOk: bool, activates: bool)
    requires Safe(s)
    ensures Safe(Tick(s, frameOk, activates))
  {
    if s.preemption {
      TickIs(s, frameOk, activates);
      PausedFaultKeeps(s);
      PausedIs(s);
      hide Tick, Select, Safe, Saved, Paused, SwitchTo, Fault, At, StateAt;
      if Select(Paused(s), Preemptive) < |s.tasks| || StateAt(s, At(s)) == Finished {
        PausedSwitchKeeps(s);
      }
    }
  }

  /** A tick faults for no reason but a bad interrupted frame or a refused activation. */
  lemma TickFaultsExactly(s: Sched, frameOk: bool, activates: bool)
    requires Safe(s) && s.preemption
    ensures !Tick(s, frameOk, activates).preemption
       <==> || (s.current != BOOTSTRAP_ID && !frameOk)
            || (!activates
                && (StateAt(s, At(s)) == Finished
                    || exists t :: 0 <= t < |s.tasks| && t != At(s) && s.tasks[t].state == Ready))
  {
    TickIs(s, frameOk, activates);
    PausedIs(s);
    SavedKeeps(s);
    hide Tick, Interrupt, Safe, Select, Eligible, At;
  }

  /**
   A tick takes the CPU from a task and hands it to the bootstrap task exactly when nothing
   is left to run: every registered task is Finished.
   */
  lemma TickToBootstrap(s: Sched, frameOk: bool, activates: bool)
    requires Safe(s) && s.preemption && s.current != BOOTSTRAP_ID && frameOk && activates
    ensures Tick(s, frameOk, activates).current == BOOTSTRAP_ID
       <==> forall t :: 0 <= t < |s.tasks| ==> s.tasks[t].state == Finished
  {
    CurrentIndex(s);
    TickIs(s, frameOk, activates);
    SavedKeeps(s);
    PausedIs(s);
    assert forall t :: 0 <= t < |s.tasks| ==> TaskOk(s, s.tasks[t]);
    hide Tick, Interrupt, Select, Eligible;
  }

  // ------------------------------------------------------------------ runs

  lemma StepKeeps(s: Sched, call: Call)
    requires Safe(s)
    ensures Safe(Step(s, call))
  {
    hide Safe, Tick, Yield, Block, Wake, Finish, Exit, Start, Stop, Reap, Cleanup, Create;
    match call
    case TickCall(frameOk, activates) => TickKeeps(s, frameOk, activates);
    case WakeCall(process) => WakeKeeps(s, process);
    case _ =>
      if !s.halted && Executing(s) {
        match call
        case CreateCall(process, kind, ok) => CreateKeeps(s, process, kind, ok);
        case YieldCall(activates) => YieldKeeps(s, activates);
        case BlockCall(activates) => BlockKeeps(s, activates);
        case FinishCall(activates) => FinishKeeps(s, activates);
        case ExitCall(activates, cleaned) => ExitKeeps(s, activates, cleaned);
        case StartCall => StartKeeps(s);
        case StopCall => StopKeeps(s);
        case ReapCall(process) => ReapKeeps(s, process);
        case CleanupCall => CleanupKeeps(s);
        case SpawnCall(process) => SpawnKeeps(s, process);
        case _ =>
      }
  }

  lemma StopKeeps(s: Sched)
    requires Safe(s)
    ensures Safe(Stop(s))
  {
    LowerKeeps(s, s.faults, false);
  }

  lemma CleanupKeeps(s: Sched)
    requires Safe(s)
    ensures Safe(Cleanup(s))
  {
    CurrentIndex(s);
  }

  lemma SpawnKeeps(s: Sched, process: nat)
    requires Safe(s)
    ensures Safe(s.(alive := s.alive + {process}))
  {
    var r := s.(alive := s.alive + {process});
    forall i | 0 <= i < |r.tasks| ensures TaskOk(r, r.tasks[i]) {
      assert TaskOk(s, s.tasks[i]);
    }
  }

  /** From task_init on, whatever happens, at most one task runs, and it is the current one. */
  lemma {:induction false} RunKeeps(s: Sched, calls: seq<Call>)
    requires Safe(s)
    ensures Safe(Run(s, calls))
    decreases |calls|
  {
    if calls != [] {
      StepKeeps(s, calls[0]);
      RunKeeps(Step(s, calls[0]), calls[1..]);
    }
  }

  lemma InitialSafe()
    ensures Safe(INITIAL)
  {}

  // -------------------------------------------------------- state diagram

  /** What `call` may leave of a task that was running. */
  predicate Leaves(call: Call, state: TaskState) {
    match call
    case YieldCall(_) => state == Ready || state == Running
    case TickCall(_, _) => state == Ready || state == Running
    case BlockCall(_) => state == Blocked || state == Running
    case FinishCall(_) => state == Finished || state == Running
    case ExitCall(_, _) => state == Finished || state == Running
    case _ => state == Running
  }

  /** The calls that can give a ready task the CPU. */
  predicate Dispatches(call: Call) {
    call.YieldCall? || call.TickCall? || call.BlockCall? || call.FinishCall? || call.ExitCall?
  }

  /** The only ways `call` may change a task. */
  predicate Transition(s: Sched, call: Call, t: Task, u: Task) {
    && u.id == t.id && u.process == t.process && u.kind == t.kind
    && match t.state
       case Finished => u.state == Finished
       case Blocked => u.state == if !s.halted && call.WakeCall? && Wakes(s, t, call.process) then Ready else Blocked
       case Ready => u.state == Ready || (u.state == Running && Dispatches(call))
       case Running => Leaves(call, u.state)
  }

  ghost predicate Evolves(s: Sched, call: Call, r: Sched) {
    r.nextId == s.nextId && |r.tasks| == |s.tasks| && forall i :: 0 <= i < |s.tasks| ==> Transition(s, call, s.tasks[i], r.tasks[i])
  }

  lemma WithStateEvolves(s: Sched, call: Call, i: nat, state: TaskState)
    requires StateAt(s, i) == Running && !call.WakeCall? && Leaves(call, state)
    ensures Evolves(s, call, WithState(s, i, state))
  {
    var r := WithState(s, i, state);
    forall k | 0 <= k < |s.tasks| ensures Transition(s, call, s.tasks[k], r.tasks[k]) {
      assert k != i ==> r.tasks[k] == s.tasks[k];
    }
  }

  /** Giving a ready task the CPU, after the others have moved along the state diagram. */
  lemma ResumeEvolves(s: Sched, call: Call, paused: Sched, next: nat)
    requires Evolves(s, call, paused) && Dispatches(call) && next <= |s.tasks|
    requires next < |s.tasks| ==> s.tasks[next].state == Ready
    ensures Evolves(s, call, SwitchTo(paused, next))
  {
    hide Leaves;
    var r := SwitchTo(paused, next);
    forall i | 0 <= i < |s.tasks| ensures Transition(s, call, s.tasks[i], r.tasks[i]) {
      assert Transition(s, call, s.tasks[i], paused.tasks[i]);
    }
  }

  lemma SwitchEvolves(s: Sched, call: Call, from: nat, state: TaskState, next: nat)
    requires StateAt(s, from) == Running && Dispatches(call) && Leaves(call, state) && next <= |s.tasks|
    requires next < |s.tasks| ==> next != from && s.tasks[next].state == Ready
    ensures Evolves(s, call, WithState(s, from, state))
    ensures Evolves(s, call, SwitchTo(WithState(s, from, state), next))
  {
    hide SwitchTo, WithState, Evolves, Leaves;
    WithStateEvolves(s, call, from, state);
    ResumeEvolves(s, call, WithState(s, from, state), next);
  }

  lemma SavedEvolves(s: Sched, call: Call)
    requires Safe(s) && s.preemption && call.TickCall?
    ensures Evolves(s, call, Saved(s)) && Evolves(s, call, Paused(s))
  {
    SavedKeeps(s);
    CurrentIndex(s);
    assert At(s) < |s.tasks| ==> TaskOk(s, s.tasks[At(s)]);
  }

  lemma TickEvolves(s: Sched, frameOk: bool, activates: bool)
    requires Safe(s)
    ensures Evolves(s, TickCall(frameOk, activates), Tick(s, frameOk, activates))
  {
    var call := TickCall(frameOk, activates);
    if s.preemption {
      TickIs(s, frameOk, activates);
      SavedEvolves(s, call);
      PausedIs(s);
      var next := Select(Paused(s), Preemptive);
      assert next < |s.tasks| ==> next != At(s) && Eligible(Paused(s), next, Preemptive);
      hide Tick, Select, Saved, Paused, At, Safe, Transition, SwitchTo;
      ResumeEvolves(s, call, Paused(s), next);
    }
  }

  lemma SelectReady(s: Sched, i: nat, state: TaskState)
    requires i == At(s)
    ensures var paused := WithState(s, i, state);
      var next := Select(paused, Cooperative);
      next <= |s.tasks| && (next < |s.tasks| ==> next != i && s.tasks[next].state == Ready)
  {
    PausedIndex(s, state);
    var paused := WithState(s, i, state);
    assert Select(paused, Cooperative) < |s.tasks| ==> Eligible(paused, Select(paused, Cooperative), Cooperative);
  }

  lemma SameEvolves(s: Sched, call: Call, r: Sched)
    requires !call.WakeCall? && r.tasks == s.tasks && r.nextId == s.nextId
    ensures Evolves(s, call, r)
  {}

  lemma EvolvesTasks(s: Sched, call: Call, r: Sched, q: Sched)
    requires Evolves(s, call, r) && q.tasks == r.tasks && q.nextId == r.nextId
    ensures Evolves(s, call, q)
  {}

  lemma YieldEvolves(s: Sched, activates: bool)
    requires Executing(s)
    ensures Evolves(s, YieldCall(activates), Yield(s, activates))
  {
    var call, from := YieldCall(activates), At(s);
    hide Evolves, At, Select, WithState, SwitchTo, Eligible;
    SelectReady(s, from, Ready);
    ResumeSame(s, Ready);
    SameEvolves(s, call, s);
    SwitchEvolves(s, call, from, Ready, Select(WithState(s, from, Ready), Cooperative));
  }

  lemma BlockEvolves(s: Sched, activates: bool)
    requires Executing(s)
    ensures Evolves(s, BlockCall(activates), Block(s, activates))
  {
    var call, from := BlockCall(activates), At(s);
    hide Evolves, At, Select, WithState, SwitchTo, Eligible;
    SelectReady(s, from, Blocked);
    ResumeSame(s, Blocked);
    SameEvolves(s, call, s);
    SwitchEvolves(s, call, from, Blocked, Select(WithState(s, from, Blocked), Cooperative));
  }

  lemma LeaveEvolves(s: Sched, call: Call, activates: bool)
    requires Executing(s) && (call.FinishCall? || call.ExitCall?)
    ensures var done := WithState(s, At(s), Finished);
      && Evolves(s, call, done) && Evolves(s, call, done.(halted := true))
      && Evolves(s, call, Leave(done, activates))
  {
    var from := At(s);
    hide At, Select, WithState, SwitchTo, Eligible, Evolves;
    SelectReady(s, from, Finished);
    var done := WithState(s, from, Finished);
    SwitchEvolves(s, call, from, Finished, Select(done, Cooperative));
    EvolvesTasks(s, call, done, done.(halted := true));
  }

  lemma ExitEvolves(s: Sched, activates: bool, cleaned: bool)
    requires Executing(s)
    ensures Evolves(s, ExitCall(activates, cleaned), Exit(s, activates, cleaned))
  {
    var call := ExitCall(activates, cleaned);
    LeaveEvolves(s, call, activates);
    var done := WithState(s, At(s), Finished);
    hide At, Select, WithState, SwitchTo, Eligible, Evolves, Leave;
    SameEvolves(s, call, s.(halted := true));
    var left := Leave(done, activates);
    EvolvesTasks(s, call, left, left.(alive := s.alive - {ProcessAt(s, At(s))}));
  }

  lemma FinishEvolves(s: Sched, activates: bool)
    requires Executing(s)
    ensures Evolves(s, FinishCall(activates), Finish(s, activates))
  {
    var call := FinishCall(activates);
    LeaveEvolves(s, call, activates);
    hide At, Select, WithState, SwitchTo, Eligible, Evolves, Leave;
    SameEvolves(s, call, s.(halted := true));
  }

  /** Calls that neither add nor remove tasks move each task along the state diagram. */
  lemma StepEvolves(s: Sched, call: Call)
    requires Safe(s) && !call.CreateCall? && !call.ReapCall? && !call.CleanupCall?
    ensures Evolves(s, call, Step(s, call))
  {
    hide Safe, Evolves, Executing, Tick, Yield, Block, Finish, Exit;
    if call.WakeCall? {
      WakeEvolves(s, call);
    } else if s.halted || (!call.TickCall? && !Executing(s)) || call.StartCall? || call.StopCall? || call.SpawnCall? {
      SameEvolves(s, call, Step(s, call));
    } else {
      match call
      case TickCall(frameOk, activates) => TickEvolves(s, frameOk, activates);
      case YieldCall(activates) => YieldEvolves(s, activates);
      case BlockCall(activates) => BlockEvolves(s, activates);
      case FinishCall(activates) => FinishEvolves(s, activates);
      case ExitCall(activates, cleaned) => ExitEvolves(s, activates, cleaned);
      case _ =>
    }
  }

  lemma WakeEvolves(s: Sched, call: Call)
    requires call.WakeCall?
    ensures Evolves(s, call, Step(s, call))
  {
    var r := Step(s, call);
    forall i | 0 <= i < |s.tasks| ensures Transition(s, call, s.tasks[i], r.tasks[i]) {}
  }

  lemma ReapTransitions(s: Sched, call: Call, i: nat, j: nat)
    requires Safe(s) && call.ReapCall? && i < |s.tasks| && j < |Step(s, call).tasks|
    requires s.tasks[i].id == Step(s, call).tasks[j].id
    ensures Transition(s, call, s.tasks[i], Step(s, call).tasks[j])
  {
    ReapedSame(s, call, i, j);
    hide Executing, AllReapable, Safe, Step;
  }

  /** A task that a reap leaves is as it was. */
  lemma ReapedSame(s: Sched, call: Call, i: nat, j: nat)
    requires Safe(s) && call.ReapCall? && i < |s.tasks| && j < |Step(s, call).tasks|
    requires s.tasks[i].id == Step(s, call).tasks[j].id
    ensures Step(s, call).tasks[j] == s.tasks[i]
  {
    hide Executing, AllReapable, Eligible, At;
    var r := Step(s, call);
    OthersExact(s.tasks, call.process, s.nextId);
    assert r.tasks[j] in s.tasks;
    var k :| 0 <= k < |s.tasks| && s.tasks[k] == r.tasks[j];
  }

  lemma CreateTransitions(s: Sched, call: Call, i: nat, j: nat)
    requires Safe(s) && (call.CreateCall? || call.CleanupCall?) && i < |s.tasks| && j < |Step(s, call).tasks|
    requires s.tasks[i].id == Step(s, call).tasks[j].id
    ensures Transition(s, call, s.tasks[i], Step(s, call).tasks[j])
  {
    hide Executing, AllFinished, CreateOk;
  }

  /** Every call moves every task that it leaves registered along the state diagram. */
  lemma StepTransitions(s: Sched, call: Call, i: nat, j: nat)
    requires Safe(s) && i < |s.tasks| && j < |Step(s, call).tasks| && s.tasks[i].id == Step(s, call).tasks[j].id
    ensures Transition(s, call, s.tasks[i], Step(s, call).tasks[j])
  {
    hide Step, Transition, TaskOk;
    if call.ReapCall? {
      ReapTransitions(s, call, i, j);
    } else if call.CreateCall? || call.CleanupCall? {
      CreateTransitions(s, call, i, j);
    } else {
      StepEvolves(s, call);
      assert Transition(s, call, s.tasks[j], Step(s, call).tasks[j]);
      KeepsId(s, call, j);
    }
  }

  lemma KeepsId(s: Sched, call: Call, j: nat)
    requires j < |s.tasks| && j < |Step(s, call).tasks| && Transition(s, call, s.tasks[j], Step(s, call).tasks[j])
    ensures Step(s, call).tasks[j].id == s.tasks[j].id
  {}

  /** New tasks get ids nobody had. */
  lemma StepIds(s: Sched, call: Call, j: nat)
    requires Safe(s) && j < |Step(s, call).tasks|
    ensures Step(s, call).tasks[j].id < s.nextId ==> exists i :: 0 <= i < |s.tasks| && s.tasks[i].id == Step(s, call).tasks[j].id
  {
    var r := Step(s, call);
    if call.ReapCall? {
      OthersExact(s.tasks, call.process, s.nextId);
      assert r.tasks[j] in s.tasks;
    } else if !call.CreateCall? && !call.CleanupCall? {
      StepEvolves(s, call);
      assert Transition(s, call, s.tasks[j], r.tasks[j]);
    } else if j < |s.tasks| {
      assert s.tasks[j].id == r.tasks[j].id;
    }
  }

  /** Task `id` has been created, and wherever it is registered it is in `state` for `process`. */
  ghost predicate Known(s: Sched, id: nat, state: TaskState) {
    0 < id < s.nextId && forall i :: 0 <= i < |s.tasks| && s.tasks[i].id == id ==> s.tasks[i].state == state
  }

  /** A finished task never runs again, and no later task is mistaken for it. */
  lemma {:induction false} FinishedForever(s: Sched, calls: seq<Call>, id: nat)
    requires Safe(s) && Known(s, id, Finished)
    ensures Known(Run(s, calls), id, Finished)
    decreases |calls|
  {
    if calls != [] {
      var r := Step(s, calls[0]);
      StepNext(s, calls[0]);
      forall j | 0 <= j < |r.tasks| && r.tasks[j].id == id ensures r.tasks[j].state == Finished {
        StepIds(s, calls[0], j);
        var i :| 0 <= i < |s.tasks| && s.tasks[i].id == r.tasks[j].id;
        StepTransitions(s, calls[0], i, j);
      }
      StepKeeps(s, calls[0]);
      FinishedForever(r, calls[1..], id);
    }
  }

  lemma StepNext(s: Sched, call: Call)
    requires Safe(s)
    ensures s.nextId <= Step(s, call).nextId
  {
    if !call.CreateCall? && !call.ReapCall? && !call.CleanupCall? {
      StepEvolves(s, call);
    }
  }

  ghost predicate BlockedFor(s: Sched, id: nat, process: nat) {
    Known(s, id, Blocked) && forall i :: 0 <= i < |s.tasks| && s.tasks[i].id == id ==> s.tasks[i].process == process
  }

  /** A blocked task stays blocked through any calls but a wake of its own process. */
  lemma {:induction false} BlockedUntilWoken(s: Sched, calls: seq<Call>, id: nat, process: nat)
    requires Safe(s) && BlockedFor(s, id, process) && WakeCall(process) !in calls
    ensures BlockedFor(Run(s, calls), id, process)
    decreases |calls|
  {
    if calls != [] {
      var r := Step(s, calls[0]);
      StepNext(s, calls[0]);
      forall j | 0 <= j < |r.tasks| && r.tasks[j].id == id
        ensures r.tasks[j].state == Blocked && r.tasks[j].process == process
      {
        StepIds(s, calls[0], j);
        var i :| 0 <= i < |s.tasks| && s.tasks[i].id == r.tasks[j].id;
        StepTransitions(s, calls[0], i, j);
      }
      StepKeeps(s, calls[0]);
      BlockedUntilWoken(r, calls[1..], id, process);
    }
  }

  // -------------------------------------------------------- bounded waiting

  function Ticks(calls: seq<Call>): nat {
    if calls == [] then 0 else (if calls[0].TickCall? then 1 else 0) + Ticks(calls[1..])
  }

  /** Preemption stays on throughout: no fault, no stop, no halt. */
  ghost predicate Steady(s: Sched, calls: seq<Call>)
    decreases |calls|
  {
    s.preemption && !s.halted && (calls == [] || Steady(Step(s, calls[0]), calls[1..]))
  }

  /** Task `id` is the current one, and runs. */
  ghost predicate OnCpu(s: Sched, id: nat) {
    s.current == id && StateAt(s, At(s)) == Running
  }

  /** Task `id` runs at some point of the run. */
  ghost predicate GetsCpu(s: Sched, calls: seq<Call>, id: nat)
    decreases |calls|
  {
    OnCpu(s, id) || (calls != [] && GetsCpu(Step(s, calls[0]), calls[1..], id))
  }

  /** While preemption is on the registry is frozen, and only a tick changes the current task. */
  lemma SteadyStep(s: Sched, call: Call, t: nat)
    requires Safe(s) && s.preemption && !s.halted && t < |s.tasks| && s.tasks[t].state == Ready
    requires Step(s, call).preemption && !Step(s, call).halted
    ensures var r := Step(s, call);
      && |r.tasks| == |s.tasks| && r.tasks[t].id == s.tasks[t].id
      && (OnCpu(r, s.tasks[t].id) || r.tasks[t].state == Ready)
      && (!call.TickCall? ==> At(r) == At(s))
      && (call.TickCall? ==> OnCpu(r, s.tasks[t].id) || Distance(|s.tasks|, At(r), t) < Distance(|s.tasks|, At(s), t))
  {
    CurrentIndex(s);
    assert TaskOk(s, s.tasks[t]);
    if call.TickCall? {
      TickAdvances(s, call.frameOk, call.activates, t);
      StepEvolves(s, call);
      assert Transition(s, call, s.tasks[t], Step(s, call).tasks[t]);
      StepKeeps(s, call);
      assert TaskOk(Step(s, call), Step(s, call).tasks[t]);
    } else {
      SameIndex(s.tasks, Step(s, call).tasks, s.current, 0);
    }
  }

  /** One tick brings the CPU strictly closer to every ready task, in the circular order. */
  lemma TickAdvances(s: Sched, frameOk: bool, activates: bool, t: nat)
    requires Safe(s) && s.preemption && t < |s.tasks| && s.tasks[t].state == Ready
    requires Tick(s, frameOk, activates).preemption
    ensures var r := Tick(s, frameOk, activates);
      OnCpu(r, s.tasks[t].id) || Distance(|s.tasks|, At(r), t) < Distance(|s.tasks|, At(s), t)
  {
    CurrentIndex(s);
    assert TaskOk(s, s.tasks[t]);
    TickIs(s, frameOk, activates);
    PausedIs(s);
    var next := Select(Paused(s), Preemptive);
    ReadyIsEligible(s, t);
    assert t != At(s);
    SelectNearest(Paused(s), Preemptive, t);
    var r := Tick(s, frameOk, activates);
    TickKeeps(s, frameOk, activates);
    hide Tick, Interrupt, Select, Eligible;
    IndexUnique(r.tasks, r.nextId, next);
  }

  /**
   Bounded waiting. With n registered tasks, preemption on and no fault, every ready task gets
   the CPU within n ticks, whatever else is called in between.
   */
  lemma {:induction false} BoundedWaiting(s: Sched, calls: seq<Call>, t: nat)
    requires Safe(s) && Steady(s, calls) && t < |s.tasks| && s.tasks[t].state == Ready
    requires Distance(|s.tasks|, At(s), t) <= Ticks(calls)
    ensures GetsCpu(s, calls, s.tasks[t].id)
    decreases |calls|
  {
    var r := Step(s, calls[0]);
    SteadyStep(s, calls[0], t);
    StepKeeps(s, calls[0]);
    if !OnCpu(r, s.tasks[t].id) {
      BoundedWaiting(r, calls[1..], t);
    }
  }

  lemma DistanceBound(n: nat, from: nat, t: nat)
    requires t < n
    ensures 1 <= Distance(n, from, t) <= n
  {}

  // ------------------------------------------------ bounded waiting for yields

  function Yields(calls: seq<Call>): nat {
    if calls == [] then 0 else (if calls[0] == YieldCall(true) then 1 else 0) + Yields(calls[1..])
  }

  /** Calls that neither register tasks nor drop them, nor turn preemption on. */
  predicate KeepsRegistry(call: Call) {
    !call.CreateCall? && !call.ReapCall? && !call.CleanupCall? && !call.StartCall?
  }

  /** Cooperative code is running throughout, and `process` stays alive. */
  ghost predicate Cooperating(s: Sched, calls: seq<Call>, process: nat)
    decreases |calls|
  {
    && !s.preemption && Executing(s) && process in s.alive
    && (calls == [] || (KeepsRegistry(calls[0]) && Cooperating(Step(s, calls[0]), calls[1..], process)))
  }

  /** A hand-over to the nearest eligible task brings the CPU strictly closer to every other one. */
  lemma HandOverAdvances(s: Sched, r: Sched, state: TaskState, k: nat, t: nat)
    requires Safe(s) && Safe(r) && Nearest(s, k) && HandedOver(s, r, state, k)
    requires t < |s.tasks| && t != At(s) && Eligible(s, t, Cooperative)
    ensures OnCpu(r, s.tasks[t].id) || Distance(|s.tasks|, At(r), t) < Distance(|s.tasks|, At(s), t)
  {
    assert k < |s.tasks|;
    assert r.tasks[k].id == s.tasks[k].id == r.current;
    IndexUnique(r.tasks, r.nextId, k);
    assert Distance(|s.tasks|, At(s), k) <= Distance(|s.tasks|, At(s), t);
    hide Safe, Eligible, Nearest, HandedOver, At;
  }

  /** Code that runs either keeps the CPU or hands it to the nearest eligible task; a yield does that when it can. */
  lemma CooperatingMove(s: Sched, call: Call)
    requires Safe(s) && !s.preemption && Executing(s) && KeepsRegistry(call) && !Step(s, call).halted
    ensures var r := Step(s, call);
      || (r.current == s.current && !(call == YieldCall(true) && OtherEligible(s)))
      || exists k: nat, state: TaskState :: Nearest(s, k) && HandedOver(s, r, state, k)
  {
    hide Safe, Nearest, HandedOver, GiveUp, Exit, Finish, OtherEligible, Wake, Reap, Start, Stop, Create;
    match call
    case YieldCall(activates) => GiveUpMeaning(s, Ready, activates);
    case BlockCall(activates) => GiveUpMeaning(s, Blocked, activates);
    case FinishCall(activates) =>
      FinishHaltsExactly(s, activates);
      FinishMeaning(s, activates);
    case ExitCall(activates, cleaned) =>
      ExitHaltsExactly(s, activates, cleaned);
      ExitMeaning(s, activates, cleaned);
    case _ => OtherKeepsCurrent(s, call);
  }

  lemma OtherKeepsCurrent(s: Sched, call: Call)
    requires !s.preemption && KeepsRegistry(call)
    requires !call.YieldCall? && !call.BlockCall? && !call.FinishCall? && !call.ExitCall?
    ensures Step(s, call).current == s.current
  {}

  /** What becomes of a ready task under calls that keep the registry. */
  lemma ReadyTask(s: Sched, call: Call, t: nat)
    requires Safe(s) && KeepsRegistry(call) && t < |s.tasks| && s.tasks[t].state == Ready
    ensures var r := Step(s, call);
      && Safe(r) && |r.tasks| == |s.tasks| && (forall i :: 0 <= i < |s.tasks| ==> r.tasks[i].id == s.tasks[i].id)
      && r.tasks[t].process == s.tasks[t].process && r.tasks[t].kind == s.tasks[t].kind
      && (r.tasks[t].state == Ready || (r.tasks[t].state == Running && r.current == s.tasks[t].id))
  {
    StepKeeps(s, call);
    StepEvolves(s, call);
    hide Step, Leaves;
    assert forall i :: 0 <= i < |s.tasks| ==> Transition(s, call, s.tasks[i], Step(s, call).tasks[i]);
    assert TaskOk(Step(s, call), Step(s, call).tasks[t]);
  }

  /** Whatever running code calls, the CPU comes no farther from an eligible task; a yield brings it closer. */
  lemma CooperatingStep(s: Sched, call: Call, t: nat)
    requires Safe(s) && !s.preemption && Executing(s) && KeepsRegistry(call) && Executing(Step(s, call))
    requires t < |s.tasks| && t != At(s) && Eligible(s, t, Cooperative)
    ensures var r := Step(s, call);
      && Safe(r) && |r.tasks| == |s.tasks| && r.tasks[t].id == s.tasks[t].id && r.tasks[t].process == s.tasks[t].process
      && (OnCpu(r, s.tasks[t].id)
          || (t != At(r) && r.tasks[t].state == Ready && r.tasks[t].kind == Cooperative
              && Distance(|s.tasks|, At(r), t) <= Distance(|s.tasks|, At(s), t)
              && (call == YieldCall(true) ==> Distance(|s.tasks|, At(r), t) < Distance(|s.tasks|, At(s), t))))
  {
    var r := Step(s, call);
    ReadyTask(s, call, t);
    CooperatingMove(s, call);
    assert OtherEligible(s);
    hide Step, Safe, Nearest, HandedOver;
    CurrentRuns(r, t);
    if r.current == s.current && call != YieldCall(true) {
      SameIndex(s.tasks, r.tasks, s.current, 0);
    } else if exists k: nat, state: TaskState :: Nearest(s, k) && HandedOver(s, r, state, k) {
      var k: nat, state: TaskState :| Nearest(s, k) && HandedOver(s, r, state, k);
      HandOverAdvances(s, r, state, k, t);
    }
  }

  lemma CurrentRuns(s: Sched, t: nat)
    requires Safe(s) && Executing(s) && t < |s.tasks|
    ensures t == At(s) <==> s.tasks[t].id == s.current
    ensures s.tasks[t].id == s.current ==> OnCpu(s, s.tasks[t].id)
  {
    CurrentIndex(s);
    IndexUnique(s.tasks, s.nextId, t);
  }

  /**
   Without preemption, a ready cooperative task runs within n yields, n being the number of
   registered tasks, as long as code keeps running and its process stays alive; blocking, waking,
   finishing and exiting in between do not delay it.
   */
  lemma {:induction false} CooperativeWaiting(s: Sched, calls: seq<Call>, t: nat)
    requires Safe(s) && t < |s.tasks| && t != At(s) && Eligible(s, t, Cooperative)
    requires Cooperating(s, calls, s.tasks[t].process)
    requires Distance(|s.tasks|, At(s), t) <= Yields(calls)
    ensures GetsCpu(s, calls, s.tasks[t].id)
    decreases |calls|
  {
    var r := Step(s, calls[0]);
    CooperatingStep(s, calls[0], t);
    if !OnCpu(r, s.tasks[t].id) {
      CooperativeWaiting(r, calls[1..], t);
    }
  }
}
