/** The life of a task: created with its priority, first in line when most urgent, halted, resumed, gone for good. */
module TaskLife {
  import opened Scheduler
  import opened KernelRuns

  // ---- Creation ----

  /** A new task is ready, with the priority asked for and a full slice, behind its equals; nothing else changes. */
  lemma CreatedTask<T>(k: Kernel<T>, t: T, p: Priority)
    requires Tidy(k) && t !in k.tasks
    ensures var k' := Step(k, New(t, p));
            && t in k'.tasks && k'.tasks[t].priority == p && k'.tasks[t].base == p
            && k'.tasks[t].status == Ready && k'.tasks[t].slice == 10
            && k'.queues[p] == k.queues[p] + [t]
            && (forall q :: 0 <= q < PRIORITIES && q != p ==> k'.queues[q] == k.queues[q])
            && k'.tasks.Keys == k.tasks.Keys + {t} && (forall u :: u in k.tasks ==> k'.tasks[u] == k.tasks[u])
            && k'.current == k.current && k'.idle == k.idle
  {
  }

  /** It is the first of all ready tasks: no queue is as urgent, and a running task is not more urgent. */
  ghost predicate FirstInLine<T>(k: Kernel<T>, p: Priority)
    requires WellFormed(k)
  {
    p < Lowest(k.queues, 0) && (k.tasks[k.current].status == Running ==> p <= k.tasks[k.current].priority)
  }

  lemma CreatedNext<T>(k: Kernel<T>, t: T, p: Priority, k1: Kernel<T>)
    requires Tidy(k) && t !in k.tasks && k1 == Requeue(Step(k, New(t, p)))
    ensures Next(k1) == t <==> FirstInLine(k, p)
  {
    var c, r := k.tasks[k.current], Lowest(k.queues, 0);
    var q := if c.status == Running then c.priority else PRIORITIES;
    if FirstInLine(k, p) {
      assert k.queues[p] == [] && k1.queues[p][0] == t;
      LowestOf(k1.queues, 0, p);
    } else if r <= p && r <= q {
      assert k1.queues[r][0] == k.queues[r][0] && k.queues[r][0] in k.tasks;
      LowestOf(k1.queues, 0, r);
    } else {
      assert q < p && q < r && k1.queues[q] == [k.current];
      LowestOf(k1.queues, 0, q);
    }
  }

  /** At the next choice the new task runs, with a full slice, if and only if it is first in line. */
  lemma CreatedRuns<T>(k: Kernel<T>, t: T, p: Priority)
    requires Tidy(k) && t !in k.tasks
    ensures var k' := Step(k, New(t, p));
            && Tidy(k') && Next(Requeue(k')) in Requeue(k').tasks
            && (Reschedule(k').current == t <==> FirstInLine(k, p))
            && (FirstInLine(k, p) ==> Reschedule(k').tasks[t].status == Running && Reschedule(k').tasks[t].slice == 10)
  {
    var k' := Step(k, New(t, p));
    StepTidy(k, New(t, p));
    RescheduleTidy(k');
    CreatedNext(k, t, p, Requeue(k'));
    RequeueTidy(k');
    DispatchKeeps(Requeue(k'));
  }

  lemma RequeueTidy<T>(k: Kernel<T>)
    requires Tidy(k)
    ensures WellFormed(Requeue(k)) && Requeue(k).current == k.current
  {
    if k.tasks[k.current].status == Running { EnqueueKeeps(k, k.current); }
  }

  // ---- Halting ----

  /** Halted: not running, and Tidy keeps it out of every queue. */
  ghost predicate Parked<T>(k: Kernel<T>, t: T, status: Status) {
    && Tidy(k) && t in k.tasks && t != k.idle && t != k.current
    && k.tasks[t].status == status && status in {Suspended, Terminated}
  }

  lemma NextIsQueuedOrIdle<T>(k: Kernel<T>)
    requires WellFormed(k)
    ensures Next(k) in k.tasks && (Next(k) == k.idle || Queued(k, Next(k)))
  {
    var p := Lowest(k.queues, 0);
    if p < PRIORITIES { assert k.queues[p][0] in k.tasks; }
  }

  /** A choice does not fall on a task that has stopped, even if it is the one that chooses. */
  lemma RescheduleSkips<T>(k: Kernel<T>, t: T)
    requires Tidy(k) && t in k.tasks && k.tasks[t].status in {Suspended, Terminated} && t != k.idle
    ensures Next(Requeue(k)) in Requeue(k).tasks && Parked(Reschedule(k), t, k.tasks[t].status)
  {
    RescheduleTidy(k);
    NextSkips(k, t, Requeue(k));
  }

  lemma NextSkips<T>(k: Kernel<T>, t: T, k1: Kernel<T>)
    requires Tidy(k) && t in k.tasks && k.tasks[t].status in {Suspended, Terminated} && t != k.idle && k1 == Requeue(k)
    ensures Next(k1) in k1.tasks && Next(k1) != t
  {
    RequeueTidy(k);
    NextIsQueuedOrIdle(k1);
    if k.tasks[k.current].status == Running { EnqueueKeeps(k, k.current); }
  }

  lemma TickSkips<T>(k: Kernel<T>, t: T, status: Status)
    requires Parked(k, t, status)
    ensures Parked(Tick(k), t, status)
  {
    var c := k.tasks[k.current];
    var k1 := WithTask(k, k.current, c.(slice := if c.slice > 0 then c.slice - 1 else 0));
    TickTidy(k);
    SliceTidy(k, k1.tasks[k.current].slice);
    if k1.tasks[k.current].slice == 0 { RescheduleSkips(k1, t); }
  }

  lemma YieldSkips<T>(k: Kernel<T>, t: T, status: Status, condition: bool)
    requires Parked(k, t, status)
    ensures Parked(YieldIf(k, condition), t, status)
  {
    SliceTidy(k, 0);
    TickSkips(WithTask(k, k.current, k.tasks[k.current].(slice := 0)), t, status);
  }

  /** A task that stops itself yields to another. */
  lemma SelfHalt<T>(k: Kernel<T>, t: T, status: Status)
    requires Tidy(k) && t == k.current && k.tasks[t].status == status && status in {Suspended, Terminated}
    requires t != k.idle
    ensures Parked(Yield(k), t, status)
  {
    var k1 := WithTask(k, t, k.tasks[t].(slice := 0));
    SliceTidy(k, 0);
    assert WithTask(k1, t, k1.tasks[t].(slice := 0)) == k1;
    RescheduleSkips(k1, t);
  }

  /** Halting a task, itself included, parks it. */
  lemma HaltParks<T>(k: Kernel<T>, t: T, deleted: bool)
    requires Tidy(k) && t in k.tasks && t != k.idle
    ensures Parked(Step(k, Halt(t, deleted)), t, if deleted then Terminated else Suspended)
  {
    var status := if deleted then Terminated else Suspended;
    var k1 := HaltIs(k, t, deleted, status);
    if t == k.current { SelfHalt(k1, t, status); }
  }

  lemma HaltIs<T>(k: Kernel<T>, t: T, deleted: bool, status: Status) returns (k1: Kernel<T>)
    requires Tidy(k) && t in k.tasks && t != k.idle && status == if deleted then Terminated else Suspended
    ensures Tidy(k1) && t in k1.tasks && k1.tasks[t].status == status && k1.idle == k.idle && k1.current == k.current
    ensures Step(k, Halt(t, deleted)) == YieldIf(k1, t == k.current)
  {
    k1 := Retired(k, t, status);
    RetiredTidy(k, t, status);
  }

  /** The operation does not concern a parked task: it neither halts it again nor, if it is suspended, resumes it. */
  predicate LeavesAlone<T(==)>(op: Op<T>, t: T, status: Status) {
    match op
    case Halt(u, _) => u != t
    case Wake(u) => u != t || status != Suspended
    case _ => true
  }

  lemma OtherHalts<T>(k: Kernel<T>, u: T, deleted: bool, t: T, status: Status)
    requires Parked(k, t, status) && u in k.tasks && u != t
    ensures Parked(Step(k, Halt(u, deleted)), t, status)
  {
    var s := if deleted then Terminated else Suspended;
    RetiredTidy(k, u, s);
    YieldSkips(Retired(k, u, s), t, status, u == k.current);
  }

  lemma ChangeSkips<T>(k: Kernel<T>, op: Op<T>, t: T, status: Status)
    requires Parked(k, t, status) && Allowed(k, op) && Changes(op)
    ensures Parked(Step(k, op), t, status)
  {
    ChangeOutcome(k, op);
    MovedTidy(k, op.task, Changed(k, op));
    YieldSkips(Moved(k, op.task, Changed(k, op)), t, status, Preempts(k, op));
  }

  lemma StepSkips<T>(k: Kernel<T>, op: Op<T>, t: T, status: Status)
    requires Parked(k, t, status) && Allowed(k, op) && LeavesAlone(op, t, status)
    ensures Parked(Step(k, op), t, status)
  {
    match op
    case TimerTick => TickSkips(k, t, status);
    case YieldCpu => YieldSkips(k, t, status, true);
    case New(u, p) => CreateTidy(k, u, p);
    case Wake(u) => if k.tasks[u].status == Suspended { EnqueueKeeps(k, u); }
    case Halt(u, deleted) => OtherHalts(k, u, deleted, t, status);
    case _ => ChangeSkips(k, op, t, status);
  }

  /** Over every run that leaves it alone a halted task never runs; no resume brings a deleted one back. */
  lemma {:induction false} HaltedNeverRuns<T>(k: Kernel<T>, ops: seq<Op<T>>, t: T, status: Status)
    requires Parked(k, t, status) && Legal(k, ops) && forall op :: op in ops ==> LeavesAlone(op, t, status)
    ensures Parked(Run(k, ops), t, status)
    decreases |ops|
  {
    if ops != [] {
      StepSkips(k, ops[0], t, status);
      HaltedNeverRuns(Step(k, ops[0]), ops[1..], t, status);
    }
  }

  // ---- Resuming ----

  /** A resumed task is ready again, with the priorities it had, behind its equals; nothing else changes. */
  lemma SuspendThenResume<T>(k: Kernel<T>, t: T, k1: Kernel<T>, k2: Kernel<T>)
    requires Tidy(k) && t in k.tasks && t != k.idle && k1 == Step(k, Halt(t, false))
    requires Tidy(k1) && t in k1.tasks && k2 == Step(k1, Wake(t))
    ensures k2.tasks == k1.tasks[t := k1.tasks[t].(status := Ready)] && k2.current == k1.current
    ensures k2.tasks[t].priority == k.tasks[t].priority && k2.tasks[t].base == k.tasks[t].base
    ensures k2.queues == k1.queues[k.tasks[t].priority := k1.queues[k.tasks[t].priority] + [t]]
  {
    HaltParks(k, t, false);
    HaltReprices(k, t, false);
  }

  /** For a task that was not running, suspending and resuming only sends it to the back of its queue. */
  lemma SuspendedElsewhere<T>(k: Kernel<T>, t: T, k1: Kernel<T>, k2: Kernel<T>)
    requires Tidy(k) && t in k.tasks && t != k.idle && t != k.current && k1 == Step(k, Halt(t, false))
    requires Tidy(k1) && t in k1.tasks && k2 == Step(k1, Wake(t))
    ensures k2 == k.(tasks := k.tasks[t := k.tasks[t].(status := Ready)],
                     queues := k.queues[k.tasks[t].priority := Without(k.queues[k.tasks[t].priority], t) + [t]])
  {
    var p := k.tasks[t].priority;
    assert k1 == Retired(k, t, Suspended);
    assert k2.queues == k.queues[p := Without(k.queues[p], t) + [t]];
    assert k2.tasks == k.tasks[t := k.tasks[t].(status := Ready)];
  }
}
