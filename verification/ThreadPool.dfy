/**
 * The thread pool as a step system. Each step is what one thread does between taking the pool lock and
 * releasing it, except WorkerRead, the read of the task slot that a worker makes without the lock.
 */
module ThreadPool {

  /** A function pointer and its argument. */
  datatype Task = Task(name: int, param: int)

  datatype Worker =
    | AtLock
    | Waiting
    | Holding(slot: nat, index: nat, accepted: nat, queued: nat)
      // points to `slot`, where it took task number `index` when `accepted` had been added and `queued` were left
    | Running(task: Task)
    | Exited

  datatype Manager = Looping | Leaving | AwaitingEmpty(signalled: bool) | Done

  datatype Owner = Using | Joining | Freed

  datatype Pool = Pool(
    min: nat, max: nat,
    enabled: bool, live: int, busy: int, waitExit: int,
    slots: seq<Task>, front: nat, rear: nat, size: nat,
    workers: seq<Worker>, manager: Manager, owner: Owner,
    accepted: seq<Task>,  // every task ever added, in order
    taken: nat            // how many of them were taken from the queue
  ) {
    predicate Wellformed() {
      |slots| > 0 && front < |slots| && rear < |slots| && size <= |slots| && min <= max
    }
  }

  /** threadpoll_create after its threads are started; the slots hold whatever malloc left there. */
  function Created(min: nat, max: nat, slots: seq<Task>): Pool {
    Pool(min, max, true, min, 0, 0, slots, 0, 0, 0, seq(min, _ => AtLock), Looping, Using, [], 0)
  }

  datatype Step =
    | WorkerEnter(i: nat)   // lines 110-166 from the top of the loop
    | WorkerWake(i: nat)    // lines 118-166 when a wait returns
    | WorkerRead(i: nat)    // line 170, without the lock
    | WorkerFinish(i: nat)  // lines 174-176
    | AddTask(task: Task)   // lines 426-454
    | ManagerRound(k: nat)  // lines 189-239, creating k workers
    | ManagerLeave          // lines 191-195 and 240-244
    | ManagerCheck          // lines 248-252
    | ManagerWake           // the wait of line 251 returns
    | Destroy               // lines 464-470
    | Free                  // lines 472-473

  /** `spurious` allows the manager's last wait to return without a signal, which POSIX permits. */
  predicate CanStep(s: Pool, step: Step, spurious: bool) {
    s.Wellformed() && !s.owner.Freed? &&
    match step
    case WorkerEnter(i) => i < |s.workers| && s.workers[i].AtLock?
    case WorkerWake(i) => i < |s.workers| && s.workers[i].Waiting?
    case WorkerRead(i) => i < |s.workers| && s.workers[i].Holding? && s.workers[i].slot < |s.slots|
    case WorkerFinish(i) => i < |s.workers| && s.workers[i].Running?
    case AddTask(_) => s.enabled && s.size < |s.slots|
    case ManagerRound(k) => s.manager.Looping? && s.enabled && k <= MayCreate(s)
    case ManagerLeave => s.manager.Looping? && !s.enabled
    case ManagerCheck => s.manager.Leaving?
    case ManagerWake => s.manager.AwaitingEmpty? && (s.manager.signalled || spurious)
    case Destroy => s.owner.Using?
    case Free => s.owner.Joining? && s.manager.Done?
  }

  /** How many workers one round may add: only when all are busy, tasks wait and the limit is not reached. */
  function MayCreate(s: Pool): nat {
    if s.busy == s.live && s.size > 0 && s.live < s.max
    then (if s.max - s.live < s.size then s.max - s.live else s.size)
    else 0
  }

  function Apply(s: Pool, step: Step): Pool
    requires CanStep(s, step, true)
  {
    match step
    case WorkerEnter(i) => Decide(s, i)
    case WorkerWake(i) =>
      if s.waitExit > 0 then
        var t := s.(waitExit := s.waitExit - 1);
        if s.live > s.min then Exit(t, i) else Decide(t, i)
      else Decide(s, i)
    case WorkerRead(i) => s.(workers := s.workers[i := Running(s.slots[s.workers[i].slot])])
    case WorkerFinish(i) => s.(busy := s.busy - 1, workers := s.workers[i := AtLock])
    case AddTask(task) =>
      var rear := (s.rear + 1) % |s.slots|;
      s.(rear := rear, slots := s.slots[rear := task], size := s.size + 1, accepted := s.accepted + [task])
    case ManagerRound(k) => Retire(s.(live := s.live + k, workers := s.workers + seq(k, _ => AtLock)))
    case ManagerLeave => s.(manager := Leaving)
    case ManagerCheck => s.(manager := if s.live > 0 then AwaitingEmpty(false) else Done)
    case ManagerWake => s.(manager := Done)
    case Destroy => s.(enabled := false, owner := Joining)
    case Free => s.(owner := Freed)
  }

  /** The second half of a manager round: ask idle workers to exit. */
  function Retire(s: Pool): Pool {
    if s.busy < s.live && s.live - s.busy > s.size && s.live > s.min
    then s.(waitExit := s.live - s.busy - s.size)
    else s
  }

  /** A worker at the head of its loop, with the lock: wait, exit, or take the oldest task. */
  function Decide(s: Pool, i: nat): Pool
    requires s.Wellformed() && i < |s.workers|
  {
    if s.enabled && s.size == 0 then s.(workers := s.workers[i := Waiting])
    else if !s.enabled then Exit(s, i)
    else TakeTask(s, i)
  }

  function TakeTask(s: Pool, i: nat): Pool
    requires s.Wellformed() && i < |s.workers| && s.size > 0
  {
    var front := (s.front + 1) % |s.slots|;
    s.(front := front, size := s.size - 1, busy := s.busy + 1, taken := s.taken + 1,
       workers := s.workers[i := Holding(front, s.taken, |s.accepted|, s.size - 1)])
  }

  function Exit(s: Pool, i: nat): Pool
    requires i < |s.workers|
  {
    s.(live := s.live - 1, workers := s.workers[i := Exited],
       manager := if s.live - 1 <= 0 && s.manager.AwaitingEmpty? then AwaitingEmpty(true) else s.manager)
  }

  // ----- runs -----

  /** A run: every step is possible where it is taken. All interleavings are step sequences. */
  predicate Legal(s: Pool, steps: seq<Step>, spurious: bool)
    decreases steps
  {
    steps == []
    || (CanStep(s, steps[0], spurious) && Legal(Apply(s, steps[0]), steps[1..], spurious))
  }

  /** Where the steps lead; a step that is not possible ends the run. */
  function After(s: Pool, steps: seq<Step>): Pool
    decreases steps
  {
    if steps == [] || !CanStep(s, steps[0], true) then s else After(Apply(s, steps[0]), steps[1..])
  }

  // ----- the queue -----

  /**
   * The slots hold the last |slots| accepted tasks, each at its number plus one modulo the capacity; front and
   * rear are the taken and accepted counts modulo the capacity; size is their difference.
   */
  ghost predicate QueueHolds(s: Pool) {
    && s.Wellformed()
    && s.taken + s.size == |s.accepted|
    && s.front == s.taken % |s.slots|
    && s.rear == |s.accepted| % |s.slots|
    && forall j :: 0 <= j < |s.accepted| && j >= |s.accepted| - |s.slots| ==>
         s.slots[SlotOf(j, |s.slots|)] == s.accepted[j]
  }

  function SlotOf(j: nat, n: nat): (k: nat)
    requires n > 0
    ensures k < n
  {
    (j + 1) % n
  }

  lemma ModUnique(x: nat, q: int, r: nat, n: nat)
    requires n > 0 && r < n && x == q * n + r
    ensures x % n == r
  {
    var d := q - x / n;
    assert d <= -1 ==> d * n <= 0 - n;
    assert d >= 1 ==> d * n >= n;
    assert d * n == x % n - r;
  }

  lemma SlotNext(j: nat, n: nat)
    requires n > 0
    ensures (j % n + 1) % n == SlotOf(j, n)
  {
    var q := j / n;
    if j % n + 1 == n {
      assert (q + 1) * n == q * n + n;
      ModUnique(j + 1, q + 1, 0, n);
      ModUnique(n, 1, 0, n);
    } else {
      ModUnique(j + 1, q, j % n + 1, n);
      ModUnique(j % n + 1, 0, j % n + 1, n);
    }
  }

  /** Two task numbers less than the capacity apart have different slots. */
  lemma SlotsDiffer(i: nat, j: nat, n: nat)
    requires n > 0 && i < j < i + n
    ensures SlotOf(i, n) != SlotOf(j, n)
  {
    var d := (j + 1) / n - (i + 1) / n;
    assert d * n == j - i - ((j + 1) % n - (i + 1) % n);
    if d <= 0 {
      assert d * n <= 0;
    } else {
      assert d * n >= n;
    }
  }

  lemma AddKeepsQueue(s: Pool, task: Task)
    requires QueueHolds(s) && s.size < |s.slots|
    requires CanStep(s, AddTask(task), true)
    ensures QueueHolds(Apply(s, AddTask(task)))
  {
    var n, a := |s.slots|, |s.accepted|;
    var t := Apply(s, AddTask(task));
    SlotNext(a, n);
    forall j | 0 <= j < a + 1 && j >= a + 1 - n
      ensures t.slots[SlotOf(j, n)] == t.accepted[j]
    {
      if j < a {
        SlotsDiffer(j, a, n);
      }
    }
  }

  lemma TakeKeepsQueue(s: Pool, i: nat)
    requires QueueHolds(s) && i < |s.workers| && s.size > 0
    ensures QueueHolds(TakeTask(s, i))
    ensures s.slots[(s.front + 1) % |s.slots|] == s.accepted[s.taken]
  {
    var n := |s.slots|;
    SlotNext(s.taken, n);
  }

  lemma StepKeepsQueue(s: Pool, step: Step)
    requires QueueHolds(s) && CanStep(s, step, true)
    ensures QueueHolds(Apply(s, step))
  {
    if step.AddTask? {
      AddKeepsQueue(s, step.task);
    } else if (step.WorkerEnter? || step.WorkerWake?) && s.enabled && s.size > 0 {
      TakeKeepsQueue(s, step.i);
      if step.WorkerWake? && s.waitExit > 0 {
        TakeKeepsQueue(s.(waitExit := s.waitExit - 1), step.i);
      }
    }
  }

  // ----- pointers into the queue -----

  /** A worker that took task number `index` points to that task's slot. */
  ghost predicate PointersHold(s: Pool) {
    forall i :: 0 <= i < |s.workers| && s.workers[i].Holding? ==>
      var w := s.workers[i];
      && |s.slots| > 0 && w.slot == SlotOf(w.index, |s.slots|)
      && w.index < s.taken && w.accepted == w.index + 1 + w.queued && w.accepted <= |s.accepted|
  }

  lemma StepKeepsPointers(s: Pool, step: Step)
    requires QueueHolds(s) && PointersHold(s) && CanStep(s, step, true)
    ensures PointersHold(Apply(s, step))
  {
    hide QueueHolds;
    if (step.WorkerEnter? || step.WorkerWake?) && s.enabled && s.size > 0 {
      TakeIndex(s);
    }
  }

  lemma TakeIndex(s: Pool)
    requires QueueHolds(s)
    ensures (s.front + 1) % |s.slots| == SlotOf(s.taken, |s.slots|) && s.taken + s.size == |s.accepted|
  {
    SlotNext(s.taken, |s.slots|);
  }

  /** The number of the newest accepted task that shares a slot with task `j`. */
  function Newest(j: nat, accepted: nat, n: nat): (k: nat)
    requires n > 0 && j < accepted
    ensures j <= k < accepted && k >= accepted - n
  {
    var q := (accepted - 1 - j) / n;
    assert 0 <= q * n <= accepted - 1 - j;
    assert accepted - 1 - j < q * n + n;
    j + q * n
  }

  lemma NewestSlot(j: nat, accepted: nat, n: nat)
    requires n > 0 && j < accepted
    ensures SlotOf(Newest(j, accepted, n), n) == SlotOf(j, n)
    ensures Newest(j, accepted, n) == j <==> accepted <= j + n
  {
    var q := (accepted - 1 - j) / n;
    var p := (j + 1) / n;
    assert (p + q) * n == p * n + q * n;
    ModUnique(j + q * n + 1, p + q, (j + 1) % n, n);
    if q >= 1 {
      assert q * n >= n;
    }
  }

  /**
   * What the unlocked read of line 170 finds: the newest accepted task in the slot. It is the task that the worker
   * took exactly when fewer tasks were added since than the capacity less what was queued then.
   */
  lemma UnlockedRead(s: Pool, i: nat)
    requires QueueHolds(s) && PointersHold(s) && i < |s.workers| && s.workers[i].Holding?
    ensures var w := s.workers[i];
      w.index < |s.accepted| && w.slot < |s.slots|
      && s.slots[w.slot] == s.accepted[Newest(w.index, |s.accepted|, |s.slots|)]
    ensures var w := s.workers[i];
      Newest(w.index, |s.accepted|, |s.slots|) == w.index
      <==> |s.accepted| - w.accepted < |s.slots| - w.queued
  {
    var w := s.workers[i];
    NewestSlot(w.index, |s.accepted|, |s.slots|);
  }

  // ----- population -----

  function Live(w: Worker): nat { if w.Exited? then 0 else 1 }

  function Busy(w: Worker): nat { if w.Holding? || w.Running? then 1 else 0 }

  function CountLive(ws: seq<Worker>): nat {
    if ws == [] then 0 else Live(ws[0]) + CountLive(ws[1..])
  }

  function CountBusy(ws: seq<Worker>): nat {
    if ws == [] then 0 else Busy(ws[0]) + CountBusy(ws[1..])
  }

  lemma {:induction false} CountUpdate(ws: seq<Worker>, i: nat, w: Worker)
    requires i < |ws|
    ensures CountLive(ws[i := w]) == CountLive(ws) - Live(ws[i]) + Live(w)
    ensures CountBusy(ws[i := w]) == CountBusy(ws) - Busy(ws[i]) + Busy(w)
  {
    if i > 0 {
      CountUpdate(ws[1..], i - 1, w);
      assert ws[i := w][1..] == ws[1..][i - 1 := w];
    } else {
      assert ws[0 := w][1..] == ws[1..];
    }
  }

  lemma {:induction false} CountFresh(ws: seq<Worker>, k: nat)
    ensures CountLive(ws + seq(k, _ => AtLock)) == CountLive(ws) + k
    ensures CountBusy(ws + seq(k, _ => AtLock)) == CountBusy(ws)
    decreases |ws|, k
  {
    var added := seq(k, _ => AtLock);
    if ws != [] {
      CountFresh(ws[1..], k);
      assert (ws + added)[1..] == ws[1..] + added;
    } else if k > 0 {
      CountFresh([], k - 1);
      assert ws + added == added;
      assert added[1..] == seq(k - 1, _ => AtLock) == [] + seq(k - 1, _ => AtLock);
    } else {
      assert ws + added == [];
    }
  }

  lemma {:induction false} BusyAreLive(ws: seq<Worker>)
    ensures CountBusy(ws) <= CountLive(ws)
  {
    if ws != [] {
      BusyAreLive(ws[1..]);
    }
  }

  lemma {:induction false} NoneLive(ws: seq<Worker>)
    requires CountLive(ws) == 0
    ensures forall i :: 0 <= i < |ws| ==> ws[i].Exited?
  {
    if ws != [] {
      NoneLive(ws[1..]);
    }
  }

  /** The counters are the counts, and while the pool is enabled the population is within its bounds. */
  ghost predicate PopulationHolds(s: Pool) {
    && s.live == CountLive(s.workers) <= s.max
    && s.busy == CountBusy(s.workers)
    && (s.enabled ==> s.min <= s.live)
  }

  lemma DecideKeepsPopulation(s: Pool, i: nat)
    requires s.Wellformed() && PopulationHolds(s) && i < |s.workers| && (s.workers[i].AtLock? || s.workers[i].Waiting?)
    ensures PopulationHolds(Decide(s, i))
  {
    hide CountLive, CountBusy;
    CountUpdate(s.workers, i, Decide(s, i).workers[i]);
  }

  lemma StepKeepsPopulation(s: Pool, step: Step)
    requires PopulationHolds(s) && CanStep(s, step, true)
    ensures PopulationHolds(Apply(s, step))
  {
    hide CountLive, CountBusy;
    match step
    case WorkerEnter(i) => DecideKeepsPopulation(s, i);
    case WorkerWake(i) =>
      var t := s.(waitExit := s.waitExit - 1);
      DecideKeepsPopulation(s, i);
      DecideKeepsPopulation(t, i);
      CountUpdate(s.workers, i, Exited);
    case WorkerRead(i) => CountUpdate(s.workers, i, Apply(s, step).workers[i]);
    case WorkerFinish(i) => CountUpdate(s.workers, i, AtLock);
    case ManagerRound(k) => CountFresh(s.workers, k);
    case _ =>
  }

  // ----- shutdown -----

  /** The manager leaves its loop only when the pool is disabled; while it waits, the signal says no worker is left. */
  ghost predicate PartingHolds(s: Pool) {
    && (s.enabled ==> s.owner.Using? && s.manager.Looping?)
    && (s.owner.Using? ==> s.enabled)
    && (s.manager.AwaitingEmpty? ==> (s.manager.signalled <==> s.live == 0))
    && (s.owner.Freed? ==> s.manager.Done?)
  }

  /** Unless woken without a signal, the manager also ends with no worker left. */
  ghost predicate ShutdownHolds(s: Pool) {
    PartingHolds(s) && (s.manager.Done? ==> s.live == 0)
  }

  /** Spurious wake-ups included. */
  lemma StepKeepsParting(s: Pool, step: Step)
    requires CanStep(s, step, true) && PopulationHolds(s) && PopulationHolds(Apply(s, step)) && PartingHolds(s)
    ensures PartingHolds(Apply(s, step))
  {
    hide CountLive, CountBusy;
    if step.WorkerEnter? || step.WorkerWake? {
      CountUpdate(s.workers, step.i, Exited);
    }
  }

  lemma StepKeepsShutdown(s: Pool, step: Step)
    requires CanStep(s, step, false) && PopulationHolds(s) && PopulationHolds(Apply(s, step)) && ShutdownHolds(s)
    ensures ShutdownHolds(Apply(s, step))
  {
    hide CountLive, CountBusy;
    StepKeepsParting(s, step);
    if step.WorkerEnter? || step.WorkerWake? {
      CountUpdate(s.workers, step.i, Exited);
    }
  }

  // ----- every run -----

  ghost predicate Inv(s: Pool) {
    QueueHolds(s) && PointersHold(s) && PopulationHolds(s)
  }

  lemma StepKeepsInv(s: Pool, step: Step)
    requires Inv(s) && CanStep(s, step, true)
    ensures Inv(Apply(s, step))
  {
    hide QueueHolds, PointersHold, PopulationHolds, Apply, CanStep;
    StepKeepsQueue(s, step);
    StepKeepsPointers(s, step);
    StepKeepsPopulation(s, step);
  }

  lemma CreatedInv(min: nat, max: nat, slots: seq<Task>)
    requires min <= max && slots != []
    ensures Inv(Created(min, max, slots)) && ShutdownHolds(Created(min, max, slots))
  {
    CountFresh([], min);
    assert [] + seq(min, _ => AtLock) == seq(min, _ => AtLock);
  }

  lemma {:induction false} RunKeepsInv(s: Pool, steps: seq<Step>)
    requires Inv(s) && Legal(s, steps, true)
    ensures Inv(After(s, steps))
    decreases steps
  {
    if steps != [] {
      StepKeepsInv(s, steps[0]);
      RunKeepsInv(Apply(s, steps[0]), steps[1..]);
    }
  }

  /** Over every interleaving from creation on, spurious wake-ups included. */
  lemma EveryRun(min: nat, max: nat, slots: seq<Task>, steps: seq<Step>)
    requires min <= max && slots != [] && Legal(Created(min, max, slots), steps, true)
    ensures var s := After(Created(min, max, slots), steps);
      QueueHolds(s) && PointersHold(s) && PopulationHolds(s) && 0 <= s.busy <= s.live
  {
    CreatedInv(min, max, slots);
    RunKeepsInv(Created(min, max, slots), steps);
    BusyAreLive(After(Created(min, max, slots), steps).workers);
  }

  /**
   * In every run, a worker that starts a task runs the one it took, provided that since it took it fewer tasks were
   * added than the capacity less what was queued then; otherwise it runs a task that was added later.
   */
  lemma RunStartsTaken(min: nat, max: nat, slots: seq<Task>, steps: seq<Step>, i: nat)
    requires min <= max && slots != [] && Legal(Created(min, max, slots), steps, true)
    requires CanStep(After(Created(min, max, slots), steps), WorkerRead(i), true)
    ensures var s := After(Created(min, max, slots), steps); var w := s.workers[i];
      exists j :: w.index <= j < |s.accepted| && Apply(s, WorkerRead(i)).workers[i] == Running(s.accepted[j])
        && (j == w.index <==> |s.accepted| - w.accepted < |s.slots| - w.queued)
  {
    var s := After(Created(min, max, slots), steps);
    EveryRun(min, max, slots, steps);
    UnlockedRead(s, i);
    var j := Newest(s.workers[i].index, |s.accepted|, |s.slots|);
    assert Apply(s, WorkerRead(i)).workers[i] == Running(s.accepted[j]);
  }

  lemma {:induction false} RunKeepsShutdown(s: Pool, steps: seq<Step>)
    requires Inv(s) && ShutdownHolds(s) && Legal(s, steps, false)
    ensures Inv(After(s, steps)) && ShutdownHolds(After(s, steps))
    decreases steps
  {
    if steps != [] {
      StepKeepsInv(s, steps[0]);
      hide QueueHolds, PointersHold, PopulationHolds;
      StepKeepsShutdown(s, steps[0]) by { assert Inv(Apply(s, steps[0])); }
      RunKeepsShutdown(Apply(s, steps[0]), steps[1..]);
    }
  }

  /** If waits return only when signalled, the pool is freed only when every worker has exited and nothing runs. */
  lemma FreedWhenEmpty(min: nat, max: nat, slots: seq<Task>, steps: seq<Step>)
    requires min <= max && slots != [] && Legal(Created(min, max, slots), steps, false)
    requires After(Created(min, max, slots), steps).owner.Freed?
    ensures var s := After(Created(min, max, slots), steps);
      s.live == 0 && s.busy == 0 && forall i :: 0 <= i < |s.workers| ==> s.workers[i].Exited?
  {
    var s := After(Created(min, max, slots), steps);
    CreatedInv(min, max, slots);
    RunKeepsShutdown(Created(min, max, slots), steps);
    BusyAreLive(s.workers);
    NoneLive(s.workers);
  }

  /** Wherever the owner may free the pool, no worker is left. */
  predicate FreeSafe(s: Pool, steps: seq<Step>)
    decreases steps
  {
    (CanStep(s, Free, true) ==> s.live == 0)
    && (steps == [] || !CanStep(s, steps[0], true) || FreeSafe(Apply(s, steps[0]), steps[1..]))
  }

  lemma {:induction false} RunFreeSafe(s: Pool, steps: seq<Step>)
    requires Inv(s) && PartingHolds(s) && Legal(s, steps, true)
    ensures FreeSafe(s, steps) ==> Legal(s, steps, false)
    ensures ShutdownHolds(s) && Legal(s, steps, false) ==> FreeSafe(s, steps)
    decreases steps
  {
    if steps != [] {
      var t := Apply(s, steps[0]);
      StepKeepsInv(s, steps[0]);
      hide QueueHolds, PointersHold, PopulationHolds;
      StepKeepsParting(s, steps[0]) by { assert Inv(t); }
      if ShutdownHolds(s) && CanStep(s, steps[0], false) {
        StepKeepsShutdown(s, steps[0]) by { assert Inv(t); }
      }
      RunFreeSafe(t, steps[1..]);
      assert steps[0].ManagerWake? && !s.manager.signalled ==> CanStep(t, Free, true) && t.live != 0;
    }
  }

  /**
   * The exact condition: a run takes no unsignalled wake-up of the manager's last wait if and only if, wherever in it
   * the owner may free the pool, no worker is left. So every such wake-up lets the pool be freed under a worker.
   */
  lemma FreedExact(min: nat, max: nat, slots: seq<Task>, steps: seq<Step>)
    requires min <= max && slots != [] && Legal(Created(min, max, slots), steps, true)
    ensures Legal(Created(min, max, slots), steps, false) <==> FreeSafe(Created(min, max, slots), steps)
  {
    CreatedInv(min, max, slots);
    RunFreeSafe(Created(min, max, slots), steps);
  }

  lemma StepAfterDisable(s: Pool, step: Step)
    requires !s.enabled && CanStep(s, step, true)
    ensures var t := Apply(s, step); !t.enabled && t.taken == s.taken && t.accepted == s.accepted && t.live <= s.live
  {}

  /** Once the pool is disabled it stays so: nothing is accepted, nothing is taken, and live only falls. */
  lemma {:induction false} AfterDisable(s: Pool, steps: seq<Step>)
    requires !s.enabled && Legal(s, steps, true)
    ensures var t := After(s, steps); !t.enabled && t.taken == s.taken && t.accepted == s.accepted && t.live <= s.live
    decreases steps
  {
    if steps != [] {
      StepAfterDisable(s, steps[0]);
      AfterDisable(Apply(s, steps[0]), steps[1..]);
    }
  }

  /** While the manager waits at the end, waking it and freeing the pool is safe exactly when it was signalled. */
  lemma WakeThenFree(min: nat, max: nat, slots: seq<Task>, steps: seq<Step>)
    requires min <= max && slots != [] && Legal(Created(min, max, slots), steps, true)
    requires var s := After(Created(min, max, slots), steps); s.manager.AwaitingEmpty? && !s.owner.Freed?
    ensures var s := After(Created(min, max, slots), steps);
      CanStep(s, ManagerWake, true) && CanStep(Apply(s, ManagerWake), Free, true)
      && (Apply(Apply(s, ManagerWake), Free).live == 0 <==> s.manager.signalled)
  {
    CreatedInv(min, max, slots);
    RunKeepsParting(Created(min, max, slots), steps);
  }

  lemma {:induction false} RunKeepsParting(s: Pool, steps: seq<Step>)
    requires Inv(s) && PartingHolds(s) && Legal(s, steps, true)
    ensures Inv(After(s, steps)) && PartingHolds(After(s, steps))
    decreases steps
  {
    if steps != [] {
      StepKeepsInv(s, steps[0]);
      hide QueueHolds, PointersHold, PopulationHolds;
      StepKeepsParting(s, steps[0]) by { assert Inv(Apply(s, steps[0])); }
      RunKeepsParting(Apply(s, steps[0]), steps[1..]);
    }
  }

  // ----- exactly once -----

  /** A started task: the number of the task that the worker took, and of the one it found in the slot and runs. */
  datatype Start = Start(took: nat, ran: nat, task: Task)

  /** What one step starts. */
  function StartOf(s: Pool, step: Step): seq<Start>
    requires CanStep(s, step, true)
  {
    if !step.WorkerRead? then []
    else
      var w := s.workers[step.i];
      var ran := if w.index < |s.accepted| then Newest(w.index, |s.accepted|, |s.slots|) else w.index;
      [Start(w.index, ran, s.slots[w.slot])]
  }

  /** What a run starts, in order. */
  function Starts(s: Pool, steps: seq<Step>): seq<Start>
    decreases steps
  {
    if steps == [] || !CanStep(s, steps[0], true) then []
    else StartOf(s, steps[0]) + Starts(Apply(s, steps[0]), steps[1..])
  }

  /** Every read comes before as many tasks were added as the queue had room for when its task was taken. */
  predicate Timely(s: Pool, steps: seq<Step>)
    decreases steps
  {
    steps == [] || !CanStep(s, steps[0], true)
    || (TimelyStep(s, steps[0]) && Timely(Apply(s, steps[0]), steps[1..]))
  }

  predicate TimelyStep(s: Pool, step: Step)
    requires CanStep(s, step, true)
  {
    step.WorkerRead? ==>
      var w := s.workers[step.i];
      |s.accepted| - w.accepted < |s.slots| - w.queued
  }

  function Holds(w: Worker, k: nat): nat { if w.Holding? && w.index == k then 1 else 0 }

  /** How many workers hold task number `k`. */
  function HeldBy(ws: seq<Worker>, k: nat): nat {
    if ws == [] then 0 else Holds(ws[0], k) + HeldBy(ws[1..], k)
  }

  /** How often a worker that took number `k` started. */
  function StartedBy(starts: seq<Start>, k: nat): nat {
    if starts == [] then 0 else (if starts[0].took == k then 1 else 0) + StartedBy(starts[1..], k)
  }

  lemma {:induction false} HeldUpdate(ws: seq<Worker>, i: nat, w: Worker, k: nat)
    requires i < |ws|
    ensures HeldBy(ws[i := w], k) == HeldBy(ws, k) - Holds(ws[i], k) + Holds(w, k)
  {
    if i == 0 {
      assert ws[0 := w][1..] == ws[1..];
    } else {
      HeldUpdate(ws[1..], i - 1, w, k);
      assert ws[i := w][1..] == ws[1..][i - 1 := w];
    }
  }

  lemma {:induction false} HeldFresh(ws: seq<Worker>, n: nat, k: nat)
    ensures HeldBy(ws + seq(n, _ => AtLock), k) == HeldBy(ws, k)
    decreases |ws| + n
  {
    var all := ws + seq(n, _ => AtLock);
    if ws != [] {
      assert all[1..] == ws[1..] + seq(n, _ => AtLock);
      HeldFresh(ws[1..], n, k);
    } else if n > 0 {
      assert all[1..] == [] + seq(n - 1, _ => AtLock);
      HeldFresh([], n - 1, k);
    }
  }

  lemma {:induction false} StartedConcat(a: seq<Start>, b: seq<Start>, k: nat)
    ensures StartedBy(a + b, k) == StartedBy(a, k) + StartedBy(b, k)
  {
    if a == [] {
      assert a + b == b;
    } else {
      assert (a + b)[1..] == a[1..] + b;
      StartedConcat(a[1..], b, k);
    }
  }

  function Below(k: nat, n: nat): nat { if k < n then 1 else 0 }

  /** No step loses or doubles a task number: it is taken once, held, and let go by being started. */
  lemma StepConserves(s: Pool, step: Step, k: nat)
    requires CanStep(s, step, true)
    ensures var t := Apply(s, step);
      HeldBy(t.workers, k) + StartedBy(StartOf(s, step), k) - Below(k, t.taken)
      == HeldBy(s.workers, k) - Below(k, s.taken)
  {
    hide HeldBy;
    var t := Apply(s, step);
    if step.WorkerEnter? || step.WorkerWake? || step.WorkerRead? || step.WorkerFinish? {
      HeldUpdate(s.workers, step.i, t.workers[step.i], k);
    } else if step.ManagerRound? {
      HeldFresh(s.workers, step.k, k);
    }
  }

  lemma {:induction false} RunConserves(s: Pool, steps: seq<Step>, k: nat)
    ensures HeldBy(After(s, steps).workers, k) + StartedBy(Starts(s, steps), k) - Below(k, After(s, steps).taken)
         == HeldBy(s.workers, k) - Below(k, s.taken)
    decreases steps
  {
    if steps != [] && CanStep(s, steps[0], true) {
      StepConserves(s, steps[0], k);
      hide HeldBy, StartedBy, CanStep, StartOf, Apply;
      RunConserves(Apply(s, steps[0]), steps[1..], k);
      StartedConcat(StartOf(s, steps[0]), Starts(Apply(s, steps[0]), steps[1..]), k);
    }
  }

  /** Every start runs the accepted task it says, and it is the one taken exactly when the read was timely. */
  lemma {:induction false} RunStarts(s: Pool, steps: seq<Step>)
    requires Inv(s) && Legal(s, steps, true)
    ensures s.accepted <= After(s, steps).accepted
    ensures forall n :: 0 <= n < |Starts(s, steps)| ==> Explained(Starts(s, steps)[n], After(s, steps).accepted)
    ensures Timely(s, steps) <==> AllOwn(Starts(s, steps))
    decreases steps
  {
    if steps != [] {
      var t := Apply(s, steps[0]);
      StepKeepsInv(s, steps[0]);
      StepStart(s, steps[0]);
      hide Inv, CanStep, Apply, StartOf, TimelyStep, Explained;
      RunStarts(t, steps[1..]);
      forall n | 0 <= n < |StartOf(s, steps[0])|
        ensures Explained(StartOf(s, steps[0])[n], After(s, steps).accepted)
      {
        StillExplained(StartOf(s, steps[0])[n], s.accepted, After(s, steps).accepted);
      }
      AllOwnConcat(StartOf(s, steps[0]), Starts(t, steps[1..]));
    }
  }

  predicate Explained(e: Start, accepted: seq<Task>) {
    e.took <= e.ran < |accepted| && e.task == accepted[e.ran]
  }

  predicate AllOwn(starts: seq<Start>) {
    forall n :: 0 <= n < |starts| ==> starts[n].ran == starts[n].took
  }

  lemma AllOwnConcat(a: seq<Start>, b: seq<Start>)
    ensures AllOwn(a + b) <==> AllOwn(a) && AllOwn(b)
  {
    if AllOwn(a + b) {
      assert forall n :: 0 <= n < |a| ==> a[n] == (a + b)[n];
      assert forall n :: 0 <= n < |b| ==> b[n] == (a + b)[n + |a|];
    }
  }

  lemma StillExplained(e: Start, few: seq<Task>, more: seq<Task>)
    requires Explained(e, few) && few <= more
    ensures Explained(e, more)
  {}

  lemma StepStart(s: Pool, step: Step)
    requires Inv(s) && CanStep(s, step, true)
    ensures s.accepted <= Apply(s, step).accepted
    ensures forall n :: 0 <= n < |StartOf(s, step)| ==> Explained(StartOf(s, step)[n], s.accepted)
    ensures TimelyStep(s, step) <==> AllOwn(StartOf(s, step))
  {
    hide QueueHolds, PointersHold, PopulationHolds;
    if step.WorkerRead? {
      UnlockedRead(s, step.i);
      hide Newest;
      var e := StartOf(s, step)[0];
      assert StartOf(s, step) == [e];
      assert AllOwn([e]) <==> e.ran == e.took by { assert [e][0] == e; }
    }
  }

  /**
   * Over every run, each task number that was taken is held by exactly one worker or was started by exactly one, never
   * both, and no other number is. What a start runs is an accepted task, and in exactly the timely runs always the one
   * that was taken: then every taken task is started once or still held.
   */
  lemma ExactlyOnce(min: nat, max: nat, slots: seq<Task>, steps: seq<Step>, k: nat)
    requires min <= max && slots != [] && Legal(Created(min, max, slots), steps, true)
    ensures var s := After(Created(min, max, slots), steps); var starts := Starts(Created(min, max, slots), steps);
      && HeldBy(s.workers, k) + StartedBy(starts, k) == Below(k, s.taken)
      && (forall n :: 0 <= n < |starts| ==> Explained(starts[n], s.accepted))
      && (Timely(Created(min, max, slots), steps) <==> AllOwn(starts))
  {
    var c := Created(min, max, slots);
    CreatedInv(min, max, slots);
    HeldFresh([], min, k);
    assert [] + seq(min, _ => AtLock) == c.workers;
    RunConserves(c, steps, k);
    RunStarts(c, steps);
  }

  /** How often task number `k` itself was run. */
  function RanBy(starts: seq<Start>, k: nat): nat {
    if starts == [] then 0 else (if starts[0].ran == k then 1 else 0) + RanBy(starts[1..], k)
  }

  lemma {:induction false} OwnCounts(starts: seq<Start>, k: nat)
    requires AllOwn(starts)
    ensures RanBy(starts, k) == StartedBy(starts, k)
  {
    if starts != [] {
      OwnCounts(starts[1..], k);
    }
  }

  /** Of the starts that run another task than they took, one with the least number taken. */
  lemma {:induction false} LeastLost(starts: seq<Start>) returns (n: nat)
    requires !AllOwn(starts)
    ensures n < |starts| && starts[n].ran != starts[n].took
    ensures forall j :: 0 <= j < |starts| && starts[j].ran != starts[j].took ==> starts[n].took <= starts[j].took
    decreases |starts|
  {
    var rest := starts[1..];
    if AllOwn(rest) {
      assert forall j :: 1 <= j < |starts| ==> starts[j] == rest[j - 1];
      n := 0;
    } else {
      var m := LeastLost(rest);
      assert forall j :: 1 <= j < |starts| ==> starts[j] == rest[j - 1];
      n := if starts[0].ran != starts[0].took && starts[0].took < rest[m].took then 0 else m + 1;
    }
  }

  /** A start runs its own task or a later one; so a number no lower one is lost to runs no more than it is taken. */
  lemma {:induction false} LeastIsLost(starts: seq<Start>, k: nat)
    requires forall j :: 0 <= j < |starts| ==> starts[j].took <= starts[j].ran
    requires forall j :: 0 <= j < |starts| && starts[j].ran != starts[j].took ==> k <= starts[j].took
    ensures RanBy(starts, k) <= StartedBy(starts, k)
    ensures (exists j :: 0 <= j < |starts| && starts[j].took == k && starts[j].ran != k) ==>
      RanBy(starts, k) < StartedBy(starts, k)
  {
    if starts != [] {
      var rest := starts[1..];
      LeastIsLost(rest, k);
      if j :| 0 < j < |starts| && starts[j].took == k && starts[j].ran != k {
        assert rest[j - 1] == starts[j];
      }
    }
  }

  /**
   * The law a pool is for, exactly: over every run, each task that was taken has been run once or is still held, and
   * not both, if and only if every read was timely.
   */
  lemma RunOnce(min: nat, max: nat, slots: seq<Task>, steps: seq<Step>)
    requires min <= max && slots != [] && Legal(Created(min, max, slots), steps, true)
    ensures var s := After(Created(min, max, slots), steps); var starts := Starts(Created(min, max, slots), steps);
      Timely(Created(min, max, slots), steps)
      <==> forall k :: 0 <= k < s.taken ==> HeldBy(s.workers, k) + RanBy(starts, k) == 1
  {
    var c := Created(min, max, slots);
    var s, starts := After(c, steps), Starts(c, steps);
    hide Legal, After, Starts, Timely, HeldBy, RanBy, StartedBy, AllOwn;
    ExactlyOnce(min, max, slots, steps, 0);
    if Timely(c, steps) {
      forall k | 0 <= k < s.taken ensures HeldBy(s.workers, k) + RanBy(starts, k) == 1 {
        ExactlyOnce(min, max, slots, steps, k);
        OwnCounts(starts, k);
      }
    } else {
      var n := LeastLost(starts);
      var k := starts[n].took;
      assert Explained(starts[n], s.accepted);
      ExactlyOnce(min, max, slots, steps, k);
      LeastIsLost(starts, k);
      assert k < s.taken && HeldBy(s.workers, k) + RanBy(starts, k) != 1;
    }
  }

  // ----- starts after the pool is disabled -----

  /** In a disabled pool the starts to come are exactly those of the tasks that workers hold. */
  lemma StartsWhenDisabled(s: Pool, steps: seq<Step>, k: nat)
    requires !s.enabled && Legal(s, steps, true)
    ensures HeldBy(After(s, steps).workers, k) + StartedBy(Starts(s, steps), k) == HeldBy(s.workers, k)
  {
    hide HeldBy, StartedBy;
    AfterDisable(s, steps);
    RunConserves(s, steps, k);
  }

  lemma {:induction false} NoneHeld(ws: seq<Worker>, k: nat)
    requires forall i :: 0 <= i < |ws| ==> !ws[i].Holding?
    ensures HeldBy(ws, k) == 0
  {
    if ws != [] {
      NoneHeld(ws[1..], k);
    }
  }

  /**
   * Disabling the pool stops new starts exactly when no worker is between taking its task and reading it: then, and
   * only then, no run from there starts anything.
   */
  lemma NoStartExactly(min: nat, max: nat, slots: seq<Task>, before: seq<Step>)
    requires min <= max && slots != [] && Legal(Created(min, max, slots), before, true)
    requires var s := After(Created(min, max, slots), before); !s.enabled && !s.owner.Freed?
    ensures var s := After(Created(min, max, slots), before);
      (forall steps :: Legal(s, steps, true) ==> Starts(s, steps) == [])
      <==> forall i :: 0 <= i < |s.workers| ==> !s.workers[i].Holding?
  {
    var s := After(Created(min, max, slots), before);
    EveryRun(min, max, slots, before);
    hide After, PopulationHolds;
    if i :| 0 <= i < |s.workers| && s.workers[i].Holding? {
      ReadStarts(s, i);
    } else {
      forall steps | Legal(s, steps, true) ensures Starts(s, steps) == [] {
        hide Legal;
        if Starts(s, steps) != [] {
          var k := Starts(s, steps)[0].took;
          StartsWhenDisabled(s, steps, k);
          NoneHeld(s.workers, k);
        }
      }
    }
  }

  lemma ReadStarts(s: Pool, i: nat)
    requires QueueHolds(s) && PointersHold(s) && !s.owner.Freed? && i < |s.workers| && s.workers[i].Holding?
    ensures Legal(s, [WorkerRead(i)], true) && Starts(s, [WorkerRead(i)]) != []
  {
    hide Legal, Starts, Newest;
    StartsOne(s, WorkerRead(i));
  }

  lemma StartsOne(s: Pool, step: Step)
    requires CanStep(s, step, true)
    ensures Legal(s, [step], true) && Starts(s, [step]) == StartOf(s, step)
  {
    hide CanStep, Apply, StartOf;
    assert [step][1..] == [];
    assert StartOf(s, step) + [] == StartOf(s, step);
  }

  // ----- two runs that go wrong -----

  /** One step of a run, from the back: the step at `k` leads to `t`, from where the rest is a run. */
  lemma RunAt(s: Pool, steps: seq<Step>, k: nat, t: Pool)
    requires k < |steps| && CanStep(s, steps[k], true) && Apply(s, steps[k]) == t && Legal(t, steps[k + 1..], true)
    ensures Legal(s, steps[k..], true) && After(s, steps[k..]) == After(t, steps[k + 1..])
  {
    assert steps[k..][1..] == steps[k + 1..];
  }

  lemma RunEnds(s: Pool, steps: seq<Step>)
    ensures Legal(s, steps[|steps|..], true) && After(s, steps[|steps|..]) == s
  {}

  /** Two workers and a queue of one slot. */
  function Tiny(busy: int, slot: Task, size: nat, a: Worker, b: Worker, accepted: seq<Task>, taken: nat): Pool {
    Pool(2, 2, true, 2, busy, 0, [slot], 0, 0, size, [a, b], Looping, Using, accepted, taken)
  }

  lemma TinyAdd(busy: int, slot: Task, a: Worker, b: Worker, accepted: seq<Task>, taken: nat, task: Task)
    ensures var s := Tiny(busy, slot, 0, a, b, accepted, taken);
      CanStep(s, AddTask(task), true)
      && Apply(s, AddTask(task)) == Tiny(busy, task, 1, a, b, accepted + [task], taken)
  {}

  /** One of the two workers at the lock takes the task. */
  lemma TinyTake(busy: int, slot: Task, a: Worker, b: Worker, accepted: seq<Task>, taken: nat, i: nat)
    requires i < 2 && [a, b][i] == AtLock
    ensures var s := Tiny(busy, slot, 1, a, b, accepted, taken); var h := Holding(0, taken, |accepted|, 0);
      CanStep(s, WorkerEnter(i), true)
      && Apply(s, WorkerEnter(i))
         == Tiny(busy + 1, slot, 0, if i == 0 then h else a, if i == 0 then b else h, accepted, taken + 1)
  {}

  lemma TinyRead(busy: int, slot: Task, size: nat, a: Worker, b: Worker, accepted: seq<Task>, taken: nat, i: nat)
    requires i < 2 && [a, b][i].Holding? && [a, b][i].slot == 0 && size <= 1
    ensures var s := Tiny(busy, slot, size, a, b, accepted, taken); var r := Running(slot);
      CanStep(s, WorkerRead(i), true)
      && Apply(s, WorkerRead(i))
         == Tiny(busy, slot, size, if i == 0 then r else a, if i == 0 then b else r, accepted, taken)
  {}

  /** Capacity 1: a task added before the first worker's unlocked read is run by both workers; the first is lost. */
  lemma LostTask(x: Task, y: Task, z: Task)
    ensures var steps := [AddTask(x), WorkerEnter(0), AddTask(y), WorkerRead(0), WorkerEnter(1), WorkerRead(1)];
      var s := Created(2, 2, [z]);
      Legal(s, steps, true) && After(s, steps).workers == [Running(y), Running(y)]
      && After(s, steps).accepted == [] + [x] + [y] && After(s, steps).taken == 2
  {
    hide Legal, After, CanStep, Apply;
    var steps := [AddTask(x), WorkerEnter(0), AddTask(y), WorkerRead(0), WorkerEnter(1), WorkerRead(1)];
    var h, g, ran := Holding(0, 0, 1, 0), Holding(0, 1, 2, 0), Running(y);
    var one: seq<Task>, two: seq<Task> := [] + [x], [] + [x] + [y];
    var s0, s1 := Tiny(0, z, 0, AtLock, AtLock, [], 0), Tiny(0, x, 1, AtLock, AtLock, one, 0);
    var s2, s3 := Tiny(1, x, 0, h, AtLock, one, 1), Tiny(1, y, 1, h, AtLock, two, 1);
    var s4, s5 := Tiny(1, y, 1, ran, AtLock, two, 1), Tiny(2, y, 0, ran, g, two, 2);
    var s6 := Tiny(2, y, 0, ran, ran, two, 2);
    TinyAdd(0, z, AtLock, AtLock, [], 0, x);
    TinyTake(0, x, AtLock, AtLock, one, 0, 0);
    TinyAdd(1, x, h, AtLock, one, 1, y);
    TinyRead(1, y, 1, h, AtLock, two, 1, 0);
    TinyTake(1, y, ran, AtLock, two, 1, 1);
    TinyRead(2, y, 0, ran, g, two, 2, 1);
    hide Tiny;
    RunEnds(s6, steps);
    RunAt(s5, steps, 5, s6);
    RunAt(s4, steps, 4, s5);
    RunAt(s3, steps, 3, s4);
    RunAt(s2, steps, 2, s3);
    RunAt(s1, steps, 1, s2);
    RunAt(s0, steps, 0, s1);
    TinyCreated(z);
    assert steps[0..] == steps;
  }

  lemma TinyCreated(z: Task)
    ensures Created(2, 2, [z]) == Tiny(0, z, 0, AtLock, AtLock, [], 0)
  {
    assert Created(2, 2, [z]).workers == [AtLock, AtLock];
  }

  /** A task that starts in a disabled pool: it was taken before Destroy and is read after it. */
  lemma LateStart(x: Task, z: Task)
    ensures var steps := [AddTask(x), WorkerEnter(0), Destroy];
      var c := Created(2, 2, [z]);
      && Legal(c, steps, true) && !After(c, steps).enabled && !After(c, steps).owner.Freed?
      && Legal(After(c, steps), [WorkerRead(0)], true) && Starts(After(c, steps), [WorkerRead(0)]) == [Start(0, 0, x)]
  {
    hide Legal, After;
    var steps := [AddTask(x), WorkerEnter(0), Destroy];
    var h := Holding(0, 0, 1, 0);
    var one: seq<Task> := [] + [x];
    var s0, s1 := Tiny(0, z, 0, AtLock, AtLock, [], 0), Tiny(0, x, 1, AtLock, AtLock, one, 0);
    var s2 := Tiny(1, x, 0, h, AtLock, one, 1);
    var s3 := s2.(enabled := false, owner := Joining);
    TinyCreated(z);
    TinyAdd(0, z, AtLock, AtLock, [], 0, x);
    TinyTake(0, x, AtLock, AtLock, one, 0, 0);
    RunEnds(s3, steps);
    RunAt(s2, steps, 2, s3);
    RunAt(s1, steps, 1, s2);
    RunAt(s0, steps, 0, s1);
    assert steps[0..] == steps;
    LateRead(x, s3);
  }

  lemma LateRead(x: Task, s: Pool)
    requires s == Tiny(1, x, 0, Holding(0, 0, 1, 0), AtLock, [x], 1).(enabled := false, owner := Joining)
    ensures Legal(s, [WorkerRead(0)], true) && Starts(s, [WorkerRead(0)]) == [Start(0, 0, x)]
  {
    hide Legal, Starts;
    StartsOne(s, WorkerRead(0));
  }

  /** A manager woken without a signal lets the pool be freed with all its workers in it, whatever they are doing. */
  lemma FreedUnder(s: Pool)
    requires s.Wellformed() && s.enabled && s.owner.Using? && s.manager.Looping? && s.live > 0
    ensures var steps := [Destroy, ManagerLeave, ManagerCheck, ManagerWake, Free];
      Legal(s, steps, true) && After(s, steps) == s.(enabled := false, owner := Freed, manager := Done)
  {
    hide Legal, After;
    var steps := [Destroy, ManagerLeave, ManagerCheck, ManagerWake, Free];
    var s1 := s.(enabled := false, owner := Joining);
    var s2, s3, s4 := s1.(manager := Leaving), s1.(manager := AwaitingEmpty(false)), s1.(manager := Done);
    var s5 := s4.(owner := Freed);
    RunEnds(s5, steps);
    RunAt(s4, steps, 4, s5);
    RunAt(s3, steps, 3, s4);
    RunAt(s2, steps, 2, s3);
    RunAt(s1, steps, 1, s2);
    RunAt(s, steps, 0, s1);
    assert steps[0..] == steps;
  }

  /** A pool of one worker, freed under it. */
  lemma FreedTooEarly(z: Task)
    ensures var steps := [Destroy, ManagerLeave, ManagerCheck, ManagerWake, Free];
      var s := Created(1, 1, [z]);
      Legal(s, steps, true) && After(s, steps).owner.Freed? && After(s, steps).live == 1
  {
    hide Legal, After;
    FreedUnder(Created(1, 1, [z]));
  }
}
