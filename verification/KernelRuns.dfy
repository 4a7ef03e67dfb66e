/** Every run of scheduler operations: what they all keep, and exactly when one of them loses a task. */
module KernelRuns {
  import opened Scheduler

  datatype Op<T> =
    | TimerTick
    | YieldCpu
    | Set(task: T, priority: Priority)
    | Raise(task: T, priority: Priority)
    | Reset(task: T)
    | New(task: T, priority: Priority)
    | Halt(task: T, deleted: bool)
    | Wake(task: T)

  predicate Allowed<T(==)>(k: Kernel<T>, op: Op<T>) {
    match op
    case TimerTick => true
    case YieldCpu => true
    case New(t, _) => t !in k.tasks
    case _ => op.task in k.tasks
  }

  function Step<T(==)>(k: Kernel<T>, op: Op<T>): Kernel<T>
    requires Tidy(k) && Allowed(k, op)
  {
    match op
    case TimerTick => Tick(k)
    case YieldCpu => Yield(k)
    case Set(t, p) => SetPriority(k, t, p)
    case Raise(t, p) => RaisePriority(k, t, p)
    case Reset(t) => ResetPriority(k, t)
    case New(t, p) => Create(k, t, p)
    case Halt(t, deleted) => if deleted then Delete(k, t) else Suspend(k, t)
    case Wake(t) => Resume(k, t)
  }

  /** No operation ever leaves a task queued twice, under a stale priority, or while it is not ready. */
  lemma StepTidy<T>(k: Kernel<T>, op: Op<T>)
    requires Tidy(k) && Allowed(k, op)
    ensures Tidy(Step(k, op))
  {
    match op
    case TimerTick => TickTidy(k);
    case YieldCpu => YieldTidy(k);
    case New(t, p) => CreateTidy(k, t, p);
    case Wake(t) => if k.tasks[t].status == Suspended { EnqueueKeeps(k, t); }
    case Halt(t, deleted) =>
      var status := if deleted then Terminated else Suspended;
      RetiredTidy(k, t, status);
      YieldIfTidy(Retired(k, t, status), t == k.current);
    case _ => ChangeTidy(k, op);
  }

  predicate Changes<T>(op: Op<T>) { op.Set? || op.Raise? || op.Reset? }

  /** The record a priority operation gives its task. */
  function Changed<T>(k: Kernel<T>, op: Op<T>): Task
    requires Changes(op) && op.task in k.tasks
  {
    var task := k.tasks[op.task];
    match op
    case Set(_, p) => if p == task.priority then task else task.(priority := p, base := p)
    case Raise(_, p) => if p >= task.priority then task else task.(priority := p)
    case Reset(_) => task.(priority := task.base)
  }

  /** The priority asked for is the one the task has, or is no more urgent. */
  predicate NoChange<T>(k: Kernel<T>, op: Op<T>)
    requires Changes(op) && op.task in k.tasks
  {
    var p := k.tasks[op.task].priority;
    match op
    case Set(_, q) => q == p
    case Raise(_, q) => q >= p
    case Reset(_) => false
  }

  /** The operation ends in a yield: the current task lowered itself, or another is now more urgent. */
  predicate Preempts<T(==)>(k: Kernel<T>, op: Op<T>)
    requires Changes(op) && op.task in k.tasks && k.current in k.tasks
  {
    var p, q := k.tasks[op.task].priority, Changed(k, op).priority;
    if op.task == k.current then !op.Raise? && q > p else !op.Reset? && q < k.tasks[k.current].priority
  }

  /** A priority operation changes nothing, or moves its task and then perhaps yields. */
  lemma ChangeOutcome<T>(k: Kernel<T>, op: Op<T>)
    requires Tidy(k) && Allowed(k, op) && Changes(op)
    ensures WellFormed(Moved(k, op.task, Changed(k, op)))
    ensures Step(k, op) == if NoChange(k, op) then k else YieldIf(Moved(k, op.task, Changed(k, op)), Preempts(k, op))
  {
    MovedTidy(k, op.task, Changed(k, op));
  }

  lemma ChangeTidy<T>(k: Kernel<T>, op: Op<T>)
    requires Tidy(k) && Allowed(k, op) && Changes(op)
    ensures Tidy(Step(k, op))
  {
    ChangeOutcome(k, op);
    MovedTidy(k, op.task, Changed(k, op));
    YieldIfTidy(Moved(k, op.task, Changed(k, op)), Preempts(k, op));
  }

  /** What an operation does to the priorities of the tasks there were. */
  ghost predicate Repriced<T>(k: Kernel<T>, op: Op<T>, k': Kernel<T>)
    requires Allowed(k, op)
  {
    && k.tasks.Keys <= k'.tasks.Keys
    && (op.New? ==>
          op.task in k'.tasks && k'.tasks[op.task].priority == op.priority && k'.tasks[op.task].base == op.priority)
    && (forall t :: t in k'.tasks ==> t in k.tasks || (op.New? && t == op.task))
    && forall t :: t in k.tasks ==>
         var task := if Changes(op) && t == op.task then Changed(k, op) else k.tasks[t];
         k'.tasks[t].priority == task.priority && k'.tasks[t].base == task.base
  }

  lemma StepReprices<T>(k: Kernel<T>, op: Op<T>)
    requires Tidy(k) && Allowed(k, op)
    ensures Repriced(k, op, Step(k, op))
  {
    match op
    case TimerTick => TickTidy(k);
    case YieldCpu => YieldTidy(k);
    case New(_, _) =>
    case Wake(_) =>
    case Halt(t, deleted) => HaltReprices(k, t, deleted);
    case _ => ChangeReprices(k, op);
  }

  lemma HaltReprices<T>(k: Kernel<T>, t: T, deleted: bool)
    requires Tidy(k) && t in k.tasks
    ensures Repriced(k, Halt(t, deleted), Step(k, Halt(t, deleted)))
  {
    var status := if deleted then Terminated else Suspended;
    RetiredTidy(k, t, status);
    YieldIfTidy(Retired(k, t, status), t == k.current);
  }

  lemma ChangeReprices<T>(k: Kernel<T>, op: Op<T>)
    requires Tidy(k) && Allowed(k, op) && Changes(op)
    ensures Repriced(k, op, Step(k, op))
  {
    var task := Changed(k, op);
    ChangeOutcome(k, op);
    MovedTidy(k, op.task, task);
    YieldIfTidy(Moved(k, op.task, task), Preempts(k, op));
  }

  ghost predicate Legal<T>(k: Kernel<T>, ops: seq<Op<T>>)
    requires Tidy(k)
    decreases |ops|
  {
    ops == [] || (Allowed(k, ops[0]) && (StepTidy(k, ops[0]); Legal(Step(k, ops[0]), ops[1..])))
  }

  ghost function Run<T>(k: Kernel<T>, ops: seq<Op<T>>): Kernel<T>
    requires Tidy(k) && Legal(k, ops)
    decreases |ops|
  {
    if ops == [] then k else StepTidy(k, ops[0]); Run(Step(k, ops[0]), ops[1..])
  }

  /** In every reachable kernel each queued task is in one queue only, once, under its own priority, and is ready. */
  lemma {:induction false} RunTidy<T>(k: Kernel<T>, ops: seq<Op<T>>)
    requires Tidy(k) && Legal(k, ops)
    ensures Tidy(Run(k, ops))
    decreases |ops|
  {
    if ops != [] {
      StepTidy(k, ops[0]);
      RunTidy(Step(k, ops[0]), ops[1..]);
    }
  }

  // ---- Conservation ----

  lemma YieldConserves<T>(k: Kernel<T>)
    requires Conserved(k)
    ensures Conserved(Yield(k)) <==> !Alone(k)
  {
    var k1 := WithTask(k, k.current, k.tasks[k.current].(slice := 0));
    SamePrioritiesWellFormed(k, k1);
    TickConserves(k1);
  }

  lemma MovedConserves<T>(k: Kernel<T>, t: T, task: Task)
    requires Conserved(k) && t in k.tasks && task.status == k.tasks[t].status
    ensures Conserved(Moved(k, t, task))
  {
    MovedTidy(k, t, task);
  }

  /** A priority operation conserves the tasks unless it makes the current task yield to nobody as urgent. */
  lemma ChangeConserves<T>(k: Kernel<T>, op: Op<T>)
    requires Conserved(k) && Allowed(k, op) && Changes(op)
    ensures var k1 := Moved(k, op.task, Changed(k, op));
            Conserved(k1) && (Conserved(Step(k, op)) <==> NoChange(k, op) || !Preempts(k, op) || !Alone(k1))
  {
    ChangeOutcome(k, op);
    MovedConserves(k, op.task, Changed(k, op));
    YieldConserves(Moved(k, op.task, Changed(k, op)));
  }

  /** Creating and resuming always conserve the tasks; so does halting a task that is not current. */
  lemma OthersConserve<T>(k: Kernel<T>, op: Op<T>)
    requires Conserved(k) && Allowed(k, op) && (op.New? || op.Wake? || (op.Halt? && op.task != k.current))
    ensures Conserved(Step(k, op))
  {
    match op
    case New(t, p) => CreateTidy(k, t, p);
    case Wake(t) => if k.tasks[t].status == Suspended { EnqueueKeeps(k, t); }
    case Halt(t, deleted) =>
      RemovedKeeps(k, t);
      RetiredTidy(k, t, if deleted then Terminated else Suspended);
      ChangeUnqueued(Removed(k, t), t, k.tasks[t].(status := if deleted then Terminated else Suspended));
  }

  /** A current task that has stopped, and everyone else ready exactly when queued. */
  ghost predicate Stopped<T>(k: Kernel<T>) {
    && WellFormed(k) && !Queued(k, k.current) && k.tasks[k.current].status in {Suspended, Terminated}
    && forall u :: u in k.tasks ==> (k.tasks[u].status == Ready <==> Queued(k, u))
  }

  /** Dispatching from a stopped task leaves a running one, unless the choice falls on the stopped task itself. */
  lemma StoppedDispatch<T>(k: Kernel<T>)
    requires Stopped(k)
    ensures Next(k) in k.tasks && (Conserved(Dispatch(k)) <==> Next(k) != k.current)
  {
    PoppedKeeps(k);
    var next, k1 := Next(k), Popped(k);
    var k2 := WithTask(k1, next,
      k1.tasks[next].(status := if next == k.current then k.tasks[next].status else Running, slice := TIME_SLICE));
    ChangeUnqueued(k1, next, k2.tasks[next]);
  }

  lemma StoppedYield<T>(k: Kernel<T>)
    requires Stopped(k)
    ensures Conserved(Yield(k)) <==> Next(k) != k.current
  {
    var k1 := WithTask(k, k.current, k.tasks[k.current].(slice := 0));
    ChangeUnqueued(k, k.current, k1.tasks[k.current]);
    assert WithTask(k1, k.current, k1.tasks[k.current].(slice := 0)) == k1;
    StoppedDispatch(k1);
  }

  /** Halting the current task conserves the tasks, unless it suspends the idle task with nobody else to run. */
  lemma HaltConserves<T>(k: Kernel<T>, op: Op<T>)
    requires Conserved(k) && Allowed(k, op) && op.Halt? && op.task == k.current
    ensures Conserved(Step(k, op)) <==> op.task != k.idle || op.deleted || Lowest(k.queues, 0) < PRIORITIES
  {
    var t, status := op.task, if op.deleted then Terminated else Suspended;
    if !(op.deleted && t == k.idle) {
      var k1 := Retired(k, t, status);
      RemovedKeeps(k, t);
      WithoutAbsent(k.queues[k.tasks[t].priority], t);
      ChangeUnqueued(Removed(k, t), t, k.tasks[t].(status := status));
      assert k1.queues == k.queues;
      RetiredTidy(k, t, status);
      StoppedYield(k1);
      NextQueued(k1);
    }
  }

  lemma NextQueued<T>(k: Kernel<T>)
    requires WellFormed(k)
    ensures Lowest(k.queues, 0) < PRIORITIES ==> Queued(k, Next(k))
  {
  }
}
