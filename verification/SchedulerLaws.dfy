/**
 What each scheduler call does and when it does nothing, said of the tasks, the current one and
 the live processes alone.
 */
module SchedulerLaws {
  import opened Machine
  import opened SchedulerSpec

  /** A wake readies every blocked task of a live process and touches nothing else. */
  lemma WakeExactly(s: Sched, process: nat)
    requires Safe(s)
    ensures var r := Wake(s, process);
      && r.(tasks := s.tasks) == s && |r.tasks| == |s.tasks|
      && forall i :: 0 <= i < |s.tasks| ==>
           r.tasks[i] == if s.tasks[i].state == Blocked && s.tasks[i].process == process && process in s.alive
                         then s.tasks[i].(state := Ready) else s.tasks[i]
  {
    forall i | 0 <= i < |s.tasks| ensures TaskOk(s, s.tasks[i]) {}
  }

  /** A task that could be given the CPU by the running one. */
  ghost predicate Waits(s: Sched, t: nat)
    requires t < |s.tasks|
  {
    s.tasks[t].state == Ready && s.tasks[t].kind == Cooperative && s.tasks[t].process in s.alive
  }

  ghost predicate SomeoneWaits(s: Sched) {
    exists t :: 0 <= t < |s.tasks| && Waits(s, t)
  }

  lemma WaitingIsOther(s: Sched)
    requires Safe(s) && Executing(s)
    ensures SomeoneWaits(s) <==> OtherEligible(s)
  {
    CurrentIndex(s);
    if OtherEligible(s) {
      var t :| 0 <= t < |s.tasks| && t != At(s) && Eligible(s, t, Cooperative);
      assert Waits(s, t);
    }
    if SomeoneWaits(s) {
      var t :| 0 <= t < |s.tasks| && Waits(s, t);
      assert Eligible(s, t, Cooperative);
    }
  }

  /** A yield takes the CPU from the running code exactly when someone waits for it and can be activated. */
  lemma YieldSwitches(s: Sched, activates: bool)
    requires Safe(s) && Executing(s)
    ensures Yield(s, activates).current != s.current <==> !s.preemption && activates && SomeoneWaits(s)
    ensures Yield(s, activates).current == s.current ==> Yield(s, activates) == s
  {
    if !s.preemption {
      WaitingIsOther(s);
      GiveUpMeaning(s, Ready, activates);
      CurrentIndex(s);
      if activates && OtherEligible(s) {
        var k: nat :| Nearest(s, k) && HandedOver(s, Yield(s, activates), Ready, k);
        OtherId(s, k);
      }
    }
    hide Select, Eligible;
  }

  /** Different tasks have different ids. */
  lemma OtherId(s: Sched, k: nat)
    requires Safe(s) && k < |s.tasks| && k != At(s)
    ensures IdAt(s, k) != s.current
  {
    CurrentIndex(s);
    if IdAt(s, k) == s.current {
      IndexUnique(s.tasks, s.nextId, k);
    }
  }

  /** A block does so exactly when, besides, the running code is a cooperative task. */
  lemma BlockSwitches(s: Sched, activates: bool)
    requires Safe(s) && Executing(s)
    ensures Block(s, activates).current != s.current
       <==> && !s.preemption && activates && SomeoneWaits(s)
            && exists i :: 0 <= i < |s.tasks| && s.tasks[i].id == s.current && s.tasks[i].kind == Cooperative
    ensures Block(s, activates).current == s.current ==> Block(s, activates) == s
  {
    CurrentIndex(s);
    forall i | 0 <= i < |s.tasks| && s.tasks[i].id == s.current ensures i == At(s) {
      IndexUnique(s.tasks, s.nextId, i);
    }
    if !s.preemption && At(s) < |s.tasks| && s.tasks[At(s)].kind == Cooperative {
      WaitingIsOther(s);
      GiveUpMeaning(s, Blocked, activates);
      if activates && OtherEligible(s) {
        var k: nat :| Nearest(s, k) && HandedOver(s, Block(s, activates), Blocked, k);
        OtherId(s, k);
      }
    }
    hide Select, Eligible;
  }

  /** A task is created exactly for a live process, without preemption, below 64 tasks, ids and memory permitting. */
  lemma CreateExactly(s: Sched, process: nat, kind: Kind, ok: bool)
    ensures var r := Create(s, process, kind, ok);
      if !s.preemption && process in s.alive && |s.tasks| < 64 && s.nextId != 0xffff_ffff_ffff_ffff && ok then
        && |r.tasks| == |s.tasks| + 1 && r.tasks[..|s.tasks|] == s.tasks
        && r.tasks[|s.tasks|] == Task(s.nextId, process, Ready, kind, true)
        && r == s.(tasks := r.tasks, nextId := s.nextId + 1)
      else r == s
  {}

  /** Preemption starts exactly from the bootstrap task over tasks that are all ready, preemptive and resumable. */
  lemma StartExactly(s: Sched)
    requires Safe(s) && Executing(s)
    ensures var r := Start(s);
      && (r.preemption <==>
            || s.preemption
            || (&& s.current == 0 && s.tasks != []
                && forall i :: 0 <= i < |s.tasks| ==>
                     && s.tasks[i].state == Ready && s.tasks[i].kind == Preemptive && s.tasks[i].frameOk
                     && s.tasks[i].process in s.alive))
      && r.tasks == s.tasks && r.current == s.current && r.active == s.active && r.alive == s.alive
      && (if r.preemption && !s.preemption then r.faults == 0 && !r.bootFrame else r == s)
  {
    CurrentIndex(s);
    assert !s.preemption && s.current == 0 ==> At(s) == |s.tasks|;
    assert AllReady(s) <==> forall i :: 0 <= i < |s.tasks| ==>
      && s.tasks[i].state == Ready && s.tasks[i].kind == Preemptive && s.tasks[i].frameOk && s.tasks[i].process in s.alive
    by {
      forall i | 0 <= i < |s.tasks|
        ensures Eligible(s, i, Preemptive) <==>
                && s.tasks[i].state == Ready && s.tasks[i].kind == Preemptive && s.tasks[i].frameOk && s.tasks[i].process in s.alive
      {}
    }
  }

  /** Preemption is stopped by the bootstrap task and by nobody else. */
  lemma StopExactly(s: Sched)
    requires Safe(s)
    ensures var r := Stop(s);
      && (r.preemption <==> s.preemption && s.current != 0)
      && r.(preemption := s.preemption, bootFrame := s.bootFrame) == s
  {
    CurrentIndex(s);
  }

  /** The tasks of a dead process are all taken away, in one go, once all are finished; the rest keep their order. */
  lemma ReapExactly(s: Sched, process: nat)
    requires Safe(s)
    ensures var r := Reap(s, process);
      && r.(tasks := s.tasks) == s
      && (if !s.preemption && process !in s.alive
             && (forall i :: 0 <= i < |s.tasks| && s.tasks[i].process == process ==> s.tasks[i].state == Finished)
          then
            && (forall t :: t in r.tasks <==> t in s.tasks && t.process != process)
            && KeepsOrder(s.tasks, r.tasks)
          else r == s)
  {
    hide KeepsOrder, IdsOk, Others;
    ReapOkIs(s, process);
    OthersExact(s.tasks, process, s.nextId);
    AllDifferent(s);
    OthersInOrder(s.tasks, process);
    hide Safe, ReapOk;
  }

  lemma AllDifferent(s: Sched)
    requires Safe(s)
    ensures forall i, j :: 0 <= i < j < |s.tasks| ==> s.tasks[i] != s.tasks[j]
  {}

  lemma ReapOkIs(s: Sched, process: nat)
    requires Safe(s)
    ensures ReapOk(s, process)
       <==> && !s.preemption && process !in s.alive
            && forall i :: 0 <= i < |s.tasks| && s.tasks[i].process == process ==> s.tasks[i].state == Finished
  {
    forall i | 0 <= i < |s.tasks| ensures s.tasks[i].id == s.current ==> s.tasks[i].process in s.alive {
      assert TaskOk(s, s.tasks[i]);
    }
  }

  /** The tasks of `r` come in the order they have in `ts`. */
  ghost predicate KeepsOrder(ts: seq<Task>, r: seq<Task>) {
    forall a, b, i, j ::
      0 <= a < b < |r| && 0 <= i < |ts| && 0 <= j < |ts| && ts[i] == r[a] && ts[j] == r[b] ==> i < j
  }

  lemma {:induction false} OthersInOrder(ts: seq<Task>, process: nat)
    requires forall i, j :: 0 <= i < j < |ts| ==> ts[i] != ts[j]
    ensures KeepsOrder(ts, Others(ts, process))
  {
    if ts != [] {
      var init, last := ts[..|ts| - 1], ts[|ts| - 1];
      OthersInOrder(init, process);
      var q, r := Others(init, process), Others(ts, process);
      forall a, b, i, j | 0 <= a < b < |r| && 0 <= i < |ts| && 0 <= j < |ts| && ts[i] == r[a] && ts[j] == r[b]
        ensures i < j
      {
        assert r[a] == q[a] && r[a] in init;
        if b < |q| {
          assert r[b] == q[b] && r[b] in init;
          assert i < |init| && j < |init| && init[i] == q[a] && init[j] == q[b];
        } else {
          assert r[b] == last && i < |init|;
        }
      }
    }
  }

  /** The registry is emptied exactly by the bootstrap task, without preemption, when every task is finished. */
  lemma CleanupExactly(s: Sched)
    requires Safe(s)
    ensures var r := Cleanup(s);
      && (r.tasks == [] <==>
            || s.tasks == []
            || (!s.preemption && s.current == 0 && forall i :: 0 <= i < |s.tasks| ==> s.tasks[i].state == Finished))
      && (r.tasks != [] ==> r == s) && r.(tasks := s.tasks) == s
  {
    CurrentIndex(s);
  }

  /**
   A tick in order: with a ready task about, the nearest one runs and the interrupted one is ready
   again, or stays finished; with none, the interrupted one carries on.
   */
  lemma TickHandsOver(s: Sched)
    requires Safe(s) && s.preemption
    ensures var r := Tick(s, true, true);
      && r.preemption && r.faults == s.faults && r.alive == s.alive && |r.tasks| == |s.tasks|
      && (forall t :: 0 <= t < |s.tasks| && t != At(s) && s.tasks[t].id != r.current ==> r.tasks[t] == s.tasks[t])
      && (forall t :: 0 <= t < |s.tasks| && t != At(s) && s.tasks[t].state == Ready ==>
            r.current != s.current && exists k :: 0 <= k < |s.tasks| && NextReady(s, r, k))
      && (At(s) < |s.tasks| && r.current != s.current ==>
            r.tasks[At(s)].state == if s.tasks[At(s)].state == Finished then Finished else Ready)
      && ((forall t :: 0 <= t < |s.tasks| && t != At(s) ==> s.tasks[t].state != Ready) && StateAt(s, At(s)) == Running ==>
            r.current == s.current)
  {
    var next := Select(Paused(s), Preemptive);
    CurrentIndex(s);
    TickIs(s, true, true);
    PausedIs(s);
    SavedKeeps(s);
    forall t | 0 <= t < |s.tasks| && t != At(s) && s.tasks[t].state == Ready
      ensures next < |s.tasks| && Distance(|s.tasks|, At(s), next) <= Distance(|s.tasks|, At(s), t)
    {
      PausedReady(s, t);
      SelectNearest(Paused(s), Preemptive, t);
    }
    if next < |s.tasks| {
      OtherId(s, next);
      PausedReady(s, next);
      assert NextReady(s, Tick(s, true, true), next);
    }
    hide Tick, Select, Eligible, Safe;
  }

  /** The answers of the calls say whether anything changed. */
  lemma AnswersTrue(s: Sched, process: nat, kind: Kind, ok: bool, activates: bool)
    requires Safe(s) && Executing(s)
    ensures WakesAny(s, process, |s.tasks|) <==> Wake(s, process) != s
    ensures CreateOk(s, process, ok) <==> Create(s, process, kind, ok) != s
    ensures BlocksNow(s, activates) <==> Block(s, activates) != s
    ensures ReapOk(s, process) && OwnsAny(s, process, |s.tasks|) <==> Reap(s, process) != s
    ensures CleanupOk(s) && s.tasks != [] <==> Cleanup(s) != s
  {
    WokenChanges(s, process);
    BlockSwitches(s, activates);
    WaitingIsOther(s);
    ReapChanges(s, process);
    CurrentIndex(s);
    hide Wakes, WakesAny, Wake, ReapOk, OwnsAny, Reap, OtherEligible, SomeoneWaits, AllFinished;
  }

  lemma WokenChanges(s: Sched, process: nat)
    ensures WakesAny(s, process, |s.tasks|) <==> Wake(s, process) != s
  {
    var r := Wake(s, process);
    if r == s {
      forall i | 0 <= i < |s.tasks| ensures !Wakes(s, s.tasks[i], process) {
        assert r.tasks[i] == s.tasks[i];
      }
    } else {
      assert r.tasks != s.tasks;
      var i :| 0 <= i < |s.tasks| && r.tasks[i] != s.tasks[i];
      assert Wakes(s, s.tasks[i], process);
    }
  }

  lemma ReapChanges(s: Sched, process: nat)
    requires Safe(s)
    ensures ReapOk(s, process) && OwnsAny(s, process, |s.tasks|) <==> Reap(s, process) != s
  {
    OthersExact(s.tasks, process, s.nextId);
    if !OwnsAny(s, process, |s.tasks|) {
      OthersAll(s.tasks, process);
    }
    var r := Others(s.tasks, process);
    if OwnsAny(s, process, |s.tasks|) {
      var i :| 0 <= i < |s.tasks| && s.tasks[i].process == process;
      assert s.tasks[i] in s.tasks && s.tasks[i] !in r;
    }
    hide Safe, ReapOk;
  }

  lemma {:induction false} OthersAll(ts: seq<Task>, process: nat)
    requires forall i :: 0 <= i < |ts| ==> ts[i].process != process
    ensures Others(ts, process) == ts
  {
    if ts != [] {
      OthersAll(ts[..|ts| - 1], process);
    }
  }

  /** A tick that faults is counted, turns preemption off and leaves everybody as they were; no other is counted. */
  lemma FaultsCounted(s: Sched, frameOk: bool, activates: bool)
    requires Safe(s) && s.preemption
    ensures var r := Tick(s, frameOk, activates);
      && r.faults == s.faults + (if r.preemption then 0 else 1) && |r.tasks| == |s.tasks|
      && (!r.preemption ==>
            && r.current == s.current && r.active == s.active && r.alive == s.alive
            && forall t :: 0 <= t < |s.tasks| ==> r.tasks[t].state == s.tasks[t].state && r.tasks[t].id == s.tasks[t].id)
  {
    CurrentIndex(s);
    TickIs(s, frameOk, activates);
    PausedIs(s);
    SavedKeeps(s);
    hide Tick, Select, Safe, Eligible;
  }

  lemma PausedReady(s: Sched, t: nat)
    requires Safe(s) && s.preemption && t < |s.tasks| && t != At(s)
    ensures At(Paused(s)) == At(s) && |Paused(s).tasks| == |s.tasks|
    ensures Eligible(Paused(s), t, Preemptive) <==> s.tasks[t].state == Ready
  {
    PausedIs(s);
    ReadyIsEligible(s, t);
  }

  /** Task `k` was the ready one nearest after the current one, and runs in `r`. */
  ghost predicate NextReady(s: Sched, r: Sched, k: nat)
    requires k < |s.tasks|
  {
    && k != At(s) && s.tasks[k].state == Ready
    && r.current == s.tasks[k].id && r.active == s.tasks[k].process
    && |r.tasks| == |s.tasks| && r.tasks[k] == s.tasks[k].(state := Running)
    && forall t :: 0 <= t < |s.tasks| && t != At(s) && s.tasks[t].state == Ready ==>
         Distance(|s.tasks|, At(s), k) <= Distance(|s.tasks|, At(s), t)
  }
}
