/**
 * What the steps of the thread pool get done: which fields each changes, that no reachable pool is stuck with tasks in
 * its queue, and that a disabled pool can always be emptied and freed.
 */
module PoolProgress {
  import opened ThreadPool

  /** A pool that some run from creation on leads to, spurious wake-ups included. */
  ghost predicate Reachable(s: Pool) {
    exists min: nat, max: nat, slots, steps :: min <= max && slots != []
      && Legal(Created(min, max, slots), steps, true) && s == After(Created(min, max, slots), steps)
  }

  ghost predicate Sound(s: Pool) { Inv(s) && PartingHolds(s) }

  lemma ReachableSound(s: Pool)
    requires Reachable(s)
    ensures Sound(s)
  {
    hide Legal, After, Inv, PartingHolds;
    var min: nat, max: nat, slots, steps :| min <= max && slots != []
      && Legal(Created(min, max, slots), steps, true) && s == After(Created(min, max, slots), steps);
    CreatedInv(min, max, slots);
    CreatedParting(min, max, slots);
    RunKeepsParting(Created(min, max, slots), steps);
  }

  lemma CreatedParting(min: nat, max: nat, slots: seq<Task>)
    ensures PartingHolds(Created(min, max, slots))
  {}

  lemma StepKeepsSound(s: Pool, step: Step)
    requires Sound(s) && CanStep(s, step, true)
    ensures Sound(Apply(s, step))
  {
    hide QueueHolds, PointersHold, PopulationHolds, Apply, CanStep, PartingHolds;
    StepKeepsInv(s, step);
    StepKeepsParting(s, step);
  }

  // ----- one step -----

  /** A worker comes to look at the queue: at the top of its loop, or out of a wait that does not end its life. */
  predicate Looks(s: Pool, step: Step) {
    step.WorkerEnter? || (step.WorkerWake? && (s.waitExit <= 0 || s.live <= s.min))
  }

  /** A wait uses up a pending exit whether or not the worker may exit. */
  function ExitsLeft(s: Pool, step: Step): int {
    if step.WorkerWake? && s.waitExit > 0 then s.waitExit - 1 else s.waitExit
  }

  /** In an enabled pool with tasks, the worker ends up holding the oldest one and nothing else changes. */
  lemma WorkerTakes(s: Pool, step: Step)
    requires Reachable(s) && CanStep(s, step, true) && Looks(s, step) && s.enabled && s.size > 0
    ensures var t := Apply(s, step); var w := t.workers[step.i];
      && t == s.(front := t.front, size := s.size - 1, busy := s.busy + 1, taken := s.taken + 1,
                 waitExit := ExitsLeft(s, step), workers := s.workers[step.i := w])
      && w.Holding? && w.index == s.taken && w.slot == t.front < |s.slots|
      && s.taken < |s.accepted| && s.slots[w.slot] == s.accepted[s.taken]
  {
    ReachableSound(s);
    hide PointersHold, PopulationHolds, Reachable;
    TakeKeepsQueue(s, step.i);
  }

  /** In an enabled pool without tasks it waits. */
  lemma WorkerWaits(s: Pool, step: Step)
    requires CanStep(s, step, true) && Looks(s, step) && s.enabled && s.size == 0
    ensures Apply(s, step) == s.(waitExit := ExitsLeft(s, step), workers := s.workers[step.i := Waiting])
  {}

  /** In a disabled pool, and out of a wait when the manager asked for an exit above the minimum, it exits. */
  lemma WorkerExits(s: Pool, step: Step)
    requires Reachable(s) && CanStep(s, step, true) && (step.WorkerEnter? || step.WorkerWake?)
    requires Looks(s, step) ==> !s.enabled
    ensures var t := Apply(s, step);
      && t == s.(live := s.live - 1, waitExit := ExitsLeft(s, step), workers := s.workers[step.i := Exited],
                 manager := t.manager)
      && t.manager == if s.manager.AwaitingEmpty? then AwaitingEmpty(t.live == 0) else s.manager
  {
    ReachableSound(s);
    hide QueueHolds, PointersHold, CountLive, CountBusy, Reachable;
    CountUpdate(s.workers, step.i, Exited);
  }

  /** A worker that has run its task is free again; the task a worker starts is what its slot holds. */
  lemma WorkerRuns(s: Pool, i: nat)
    ensures CanStep(s, WorkerRead(i), true) ==>
      Apply(s, WorkerRead(i)) == s.(workers := s.workers[i := Running(s.slots[s.workers[i].slot])])
    ensures CanStep(s, WorkerFinish(i), true) ==>
      Apply(s, WorkerFinish(i)) == s.(busy := s.busy - 1, workers := s.workers[i := AtLock])
  {}

  /** A task is added, behind all others, exactly when the pool is enabled and fewer wait than there are slots. */
  lemma TaskAdded(s: Pool, task: Task)
    requires Reachable(s)
    ensures CanStep(s, AddTask(task), true) <==> s.enabled && |s.accepted| - s.taken < |s.slots|
    ensures CanStep(s, AddTask(task), true) ==>
      var t := Apply(s, AddTask(task));
      && t == s.(slots := t.slots, rear := t.rear, size := s.size + 1, accepted := s.accepted + [task])
      && |t.slots| == |s.slots| && t.slots[SlotOf(|s.accepted|, |s.slots|)] == task
  {
    ReachableSound(s);
    hide PointersHold, PopulationHolds, Reachable;
    SlotNext(|s.accepted|, |s.slots|);
  }

  /** Disabling is possible once, while the pool is in use, and leaves the workers and the queue as they are. */
  lemma PoolDisabled(s: Pool)
    requires Reachable(s)
    ensures CanStep(s, Destroy, true) <==> s.enabled
    ensures CanStep(s, Destroy, true) ==> Apply(s, Destroy) == s.(enabled := false, owner := Joining)
  {
    ReachableSound(s);
    hide PointersHold, PopulationHolds, Reachable;
  }

  /** A round of the manager may create workers only when all are busy: at most one for every task, up to the limit. */
  lemma ManagerCreates(s: Pool, k: nat)
    requires Reachable(s) && k > 0
    ensures CanStep(s, ManagerRound(k), true)
       <==> !s.owner.Freed? && s.enabled && s.busy == s.live && k <= s.size && s.live + k <= s.max
    ensures CanStep(s, ManagerRound(k), true) ==>
      Apply(s, ManagerRound(k)) == s.(live := s.live + k, workers := s.workers + seq(k, _ => AtLock))
  {
    ReachableSound(s);
    hide PointersHold, CountLive, CountBusy, Reachable;
  }

  /** A round that creates none asks those workers to exit that are neither busy nor needed for the tasks queued. */
  lemma ManagerRetires(s: Pool)
    requires CanStep(s, ManagerRound(0), true)
    ensures Apply(s, ManagerRound(0)) == s.(waitExit :=
      if s.live > s.min && s.live > s.busy && s.live > s.busy + s.size then s.live - s.busy - s.size else s.waitExit)
  {
    assert s.workers + seq(0, _ => AtLock) == s.workers;
  }

  // ----- runs -----

  lemma RunCons(s: Pool, step: Step, steps: seq<Step>)
    requires CanStep(s, step, false) && Legal(Apply(s, step), steps, false)
    ensures Legal(s, [step] + steps, false) && After(s, [step] + steps) == After(Apply(s, step), steps)
  {
    hide CanStep, Apply;
    assert ([step] + steps)[1..] == steps;
    assert CanStep(s, step, true) by { SignalledToo(s, step); }
  }

  lemma SignalledToo(s: Pool, step: Step)
    requires CanStep(s, step, false)
    ensures CanStep(s, step, true)
  {}

  lemma {:induction false} RunConcat(s: Pool, a: seq<Step>, b: seq<Step>)
    requires Legal(s, a, false) && Legal(After(s, a), b, false)
    ensures Legal(s, a + b, false) && After(s, a + b) == After(After(s, a), b)
    decreases a
  {
    if a == [] {
      assert a + b == b;
    } else {
      hide CanStep, Apply;
      SignalledToo(s, a[0]);
      assert (a + b)[1..] == a[1..] + b;
      RunConcat(Apply(s, a[0]), a[1..], b);
    }
  }

  /** How many steps a worker is away from the end. */
  function Effort(w: Worker): nat {
    match w
    case Holding(_, _, _, _) => 3
    case Running(_) => 2
    case Exited => 0
    case _ => 1
  }

  function Efforts(ws: seq<Worker>): nat {
    if ws == [] then 0 else Effort(ws[0]) + Efforts(ws[1..])
  }

  lemma {:induction false} EffortUpdate(ws: seq<Worker>, i: nat, w: Worker)
    requires i < |ws|
    ensures Efforts(ws[i := w]) == Efforts(ws) - Effort(ws[i]) + Effort(w)
  {
    if i > 0 {
      EffortUpdate(ws[1..], i - 1, w);
      assert ws[i := w][1..] == ws[1..][i - 1 := w];
    } else {
      assert ws[0 := w][1..] == ws[1..];
    }
  }

  lemma {:induction false} SomeLive(ws: seq<Worker>) returns (i: nat)
    requires CountLive(ws) > 0
    ensures i < |ws| && !ws[i].Exited?
  {
    if ws[0].Exited? {
      var j := SomeLive(ws[1..]);
      i := j + 1;
    } else {
      i := 0;
    }
  }

  // ----- shutting down -----

  /** What a worker does next in a disabled pool. */
  function NextStep(w: Worker, i: nat): Step {
    match w
    case Holding(_, _, _, _) => WorkerRead(i)
    case Running(_) => WorkerFinish(i)
    case Waiting => WorkerWake(i)
    case _ => WorkerEnter(i)
  }

  lemma NextPossible(s: Pool, i: nat)
    requires Sound(s) && !s.owner.Freed? && i < |s.workers| && !s.workers[i].Exited?
    ensures CanStep(s, NextStep(s.workers[i], i), false)
  {
    hide QueueHolds, PopulationHolds, PartingHolds;
    assert s.Wellformed() by { QueueFormed(s); }
  }

  lemma QueueFormed(s: Pool)
    requires QueueHolds(s)
    ensures s.Wellformed()
  {}

  lemma NextWhenDisabled(s: Pool, i: nat)
    requires i < |s.workers| && !s.workers[i].Exited? && CanStep(s, NextStep(s.workers[i], i), false) && !s.enabled
    ensures var t := Apply(s, NextStep(s.workers[i], i));
      !t.enabled && t.owner == s.owner && Efforts(t.workers) < Efforts(s.workers)
  {
    hide Efforts;
    var t := Apply(s, NextStep(s.workers[i], i));
    EffortUpdate(s.workers, i, t.workers[i]);
  }

  /** The workers of a disabled pool can all be brought to their end. */
  lemma {:induction false} Drain(s: Pool) returns (steps: seq<Step>)
    requires Sound(s) && !s.enabled && !s.owner.Freed?
    ensures Legal(s, steps, false)
    ensures var t := After(s, steps); Sound(t) && !t.enabled && !t.owner.Freed? && t.live == 0
    decreases Efforts(s.workers)
  {
    hide Legal, After, Apply, CanStep, Efforts, NextStep, QueueHolds, PointersHold, PartingHolds, CountLive, CountBusy;
    if s.live == 0 {
      steps := [];
      NoSteps(s);
    } else {
      var i := SomeLive(s.workers);
      var step := NextStep(s.workers[i], i);
      NextPossible(s, i);
      SignalledToo(s, step);
      StepKeepsSound(s, step);
      NextWhenDisabled(s, i);
      var rest := Drain(Apply(s, step));
      steps := [step] + rest;
      RunCons(s, step, rest);
    }
  }

  lemma NoSteps(s: Pool)
    ensures Legal(s, [], false) && After(s, []) == s
  {}

  /** With no worker left, the manager ends and the owner frees the pool. */
  lemma Finish(s: Pool) returns (steps: seq<Step>)
    requires Sound(s) && !s.enabled && !s.owner.Freed? && s.live == 0
    ensures Legal(s, steps, false) && After(s, steps) == s.(manager := ThreadPool.Done, owner := Freed)
  {
    hide Legal, After, QueueHolds, PointersHold, PopulationHolds;
    QueueFormed(s);
    var ended := s.(manager := ThreadPool.Done);
    NoSteps(ended.(owner := Freed));
    RunCons(ended, Free, []);
    steps := [Free] + [];
    if s.manager.AwaitingEmpty? {
      RunCons(s, ManagerWake, steps);
      steps := [ManagerWake] + steps;
    } else if !s.manager.Done? {
      var left := s.(manager := Leaving);
      RunCons(left, ManagerCheck, steps);
      steps := [ManagerCheck] + steps;
      if s.manager.Looping? {
        RunCons(s, ManagerLeave, steps);
        steps := [ManagerLeave] + steps;
      }
    }
  }

  /** From every reachable pool that is disabled and not freed, signalled steps lead to its end with no worker left. */
  lemma CanBeFreed(s: Pool) returns (steps: seq<Step>)
    requires Reachable(s) && !s.enabled && !s.owner.Freed?
    ensures Legal(s, steps, false) && After(s, steps).owner.Freed? && After(s, steps).live == 0
  {
    hide Legal, After, Sound;
    ReachableSound(s);
    steps := Drain(s);
    var rest := Finish(After(s, steps));
    RunConcat(s, steps, rest);
    steps := steps + rest;
  }

  // ----- serving the queue -----

  /** In an enabled pool with tasks, a worker's next step takes one or brings the worker nearer to that or its end. */
  lemma NextWhenQueued(s: Pool, i: nat)
    requires i < |s.workers| && !s.workers[i].Exited? && CanStep(s, NextStep(s.workers[i], i), false)
    requires s.enabled && s.size > 0
    ensures var t := Apply(s, NextStep(s.workers[i], i));
      && t.enabled && t.accepted == s.accepted && t.max == s.max
      && (t.taken == s.taken + 1 || (t.taken == s.taken && t.size == s.size && Efforts(t.workers) < Efforts(s.workers)))
  {
    hide Efforts;
    var t := Apply(s, NextStep(s.workers[i], i));
    EffortUpdate(s.workers, i, t.workers[i]);
  }

  /** With no worker left, the manager creates one, and that one takes a task. */
  lemma TakeNew(s: Pool) returns (steps: seq<Step>)
    requires Sound(s) && s.enabled && s.size > 0 && s.max > 0 && s.live == 0
    ensures Legal(s, steps, false)
    ensures var t := After(s, steps);
      Sound(t) && t.enabled && t.accepted == s.accepted && t.max == s.max && t.taken == s.taken + 1
  {
    hide Legal, After, QueueHolds, PointersHold, CountLive, CountBusy;
    QueueFormed(s);
    BusyAreLive(s.workers);
    assert CanStep(s, ManagerRound(1), false);
    StepKeepsSound(s, ManagerRound(1));
    var t, i := Apply(s, ManagerRound(1)), |s.workers|;
    assert CanStep(t, WorkerEnter(i), false);
    StepKeepsSound(t, WorkerEnter(i));
    NoSteps(Apply(t, WorkerEnter(i)));
    RunCons(t, WorkerEnter(i), []);
    RunCons(s, ManagerRound(1), [WorkerEnter(i)] + []);
    steps := [ManagerRound(1)] + ([WorkerEnter(i)] + []);
  }

  lemma {:induction false} TakeOne(s: Pool) returns (steps: seq<Step>)
    requires Sound(s) && s.enabled && s.size > 0 && s.max > 0
    ensures Legal(s, steps, false)
    ensures var t := After(s, steps);
      Sound(t) && t.enabled && t.accepted == s.accepted && t.max == s.max && t.taken == s.taken + 1
    decreases Efforts(s.workers)
  {
    hide Legal, After, Apply, CanStep, Efforts, NextStep, QueueHolds, PointersHold, CountLive, CountBusy;
    if s.live == 0 {
      steps := TakeNew(s);
      return;
    }
    var i := SomeLive(s.workers);
    var step := NextStep(s.workers[i], i);
    NextPossible(s, i);
    SignalledToo(s, step);
    StepKeepsSound(s, step);
    NextWhenQueued(s, i);
    var t := Apply(s, step);
    if t.taken > s.taken {
      NoSteps(t);
      steps := [];
    } else {
      steps := TakeOne(t);
    }
    RunCons(s, step, steps);
    steps := [step] + steps;
  }

  lemma QueueSize(s: Pool)
    requires Sound(s)
    ensures s.taken + s.size == |s.accepted|
  {}

  lemma {:induction false} TakeAll(s: Pool) returns (steps: seq<Step>)
    requires Sound(s) && s.enabled && s.max > 0
    ensures Legal(s, steps, false)
    ensures var t := After(s, steps); Sound(t) && t.enabled && t.accepted == s.accepted && t.taken == |s.accepted|
    decreases s.size
  {
    hide Legal, After, Sound;
    QueueSize(s);
    if s.size == 0 {
      NoSteps(s);
      steps := [];
    } else {
      steps := TakeOne(s);
      QueueSize(After(s, steps));
      var rest := TakeAll(After(s, steps));
      RunConcat(s, steps, rest);
      steps := steps + rest;
    }
  }

  ghost predicate NoneHolds(s: Pool) {
    forall i :: 0 <= i < |s.workers| ==> !s.workers[i].Holding?
  }

  lemma ReadOne(s: Pool, i: nat)
    requires CanStep(s, WorkerRead(i), false)
    ensures var t := Apply(s, WorkerRead(i));
      && t.enabled == s.enabled && t.accepted == s.accepted && t.taken == s.taken
      && Efforts(t.workers) < Efforts(s.workers)
  {
    hide Efforts;
    EffortUpdate(s.workers, i, Running(s.slots[s.workers[i].slot]));
  }

  /** Whatever is held can be started. */
  lemma {:induction false} ReadAll(s: Pool) returns (steps: seq<Step>)
    requires Sound(s) && s.enabled
    ensures Legal(s, steps, false)
    ensures var t := After(s, steps); t.enabled && t.accepted == s.accepted && t.taken == s.taken && NoneHolds(t)
    decreases Efforts(s.workers)
  {
    hide Legal, After, Apply, CanStep, Efforts, QueueHolds, PointersHold, PopulationHolds;
    if i :| 0 <= i < |s.workers| && s.workers[i].Holding? {
      var step := WorkerRead(i);
      NextPossible(s, i);
      SignalledToo(s, step);
      StepKeepsSound(s, step);
      ReadOne(s, i);
      var rest := ReadAll(Apply(s, step));
      RunCons(s, step, rest);
      steps := [step] + rest;
    } else {
      NoSteps(s);
      steps := [];
    }
  }

  /**
   * No reachable pool is stuck: from every one that is enabled and may have a worker, signalled steps lead to where
   * every task accepted so far has been taken and started.
   */
  lemma CanServeAll(s: Pool) returns (steps: seq<Step>)
    requires Reachable(s) && s.enabled && s.max > 0
    ensures Legal(s, steps, false)
    ensures var t := After(s, steps); t.accepted == s.accepted && t.taken == |s.accepted| && NoneHolds(t)
  {
    hide Legal, After, Sound, NoneHolds;
    ReachableSound(s);
    steps := TakeAll(s);
    var rest := ReadAll(After(s, steps));
    RunConcat(s, steps, rest);
    steps := steps + rest;
  }
}
