/**
 * The scheduler on values: FIFO ready queues by priority, time slices, preemption and priority changes.
 * Task identities are of any type; the kernel class instantiates them with its control blocks.
 */
module Scheduler {

  const PRIORITIES := 256
  const TIME_SLICE := 10

  type Priority = p: int | 0 <= p < 256

  datatype Status = Ready | Running | Blocked | Suspended | Terminated

  datatype Task = Task(priority: Priority, base: Priority, status: Status, slice: nat)

  datatype Kernel<T> = Kernel(queues: seq<seq<T>>, tasks: map<T, Task>, current: T, idle: T)

  ghost predicate NoDuplicates<T>(s: seq<T>) { forall i, j :: 0 <= i < j < |s| ==> s[i] != s[j] }

  /** Every queued task is a known task of its queue's priority, and is queued once. */
  ghost predicate WellFormed<T>(k: Kernel<T>) {
    && |k.queues| == PRIORITIES && k.current in k.tasks && k.idle in k.tasks
    && (forall p, i :: 0 <= p < PRIORITIES && 0 <= i < |k.queues[p]| ==>
          k.queues[p][i] in k.tasks && k.tasks[k.queues[p][i]].priority == p)
    && (forall p :: 0 <= p < PRIORITIES ==> NoDuplicates(k.queues[p]))
  }

  /** A task is in a ready queue; in a well-formed kernel that can only be the queue of its priority. */
  ghost predicate Queued<T>(k: Kernel<T>, t: T)
    requires WellFormed(k)
  {
    t in k.tasks && t in k.queues[k.tasks[t].priority]
  }

  /** The running task is current and unqueued, and the ready tasks are exactly the queued ones. */
  ghost predicate Conserved<T>(k: Kernel<T>) {
    && WellFormed(k)
    && k.tasks[k.current].status == Running
    && forall t :: t in k.tasks ==> (k.tasks[t].status == Ready <==> Queued(k, t))
  }

  /** The most urgent non-empty queue at or after p, or PRIORITIES. */
  function Lowest<T>(queues: seq<seq<T>>, p: nat): (r: nat)
    requires p <= |queues|
    ensures p <= r <= |queues|
    ensures r < |queues| ==> queues[r] != []
    ensures forall q :: p <= q < r ==> queues[q] == []
    decreases |queues| - p
  {
    if p == |queues| || queues[p] != [] then p else Lowest(queues, p + 1)
  }

  function WithTask<T>(k: Kernel<T>, t: T, task: Task): Kernel<T> { k.(tasks := k.tasks[t := task]) }

  /** scheduler_add_ready_task */
  function Enqueue<T>(k: Kernel<T>, t: T): Kernel<T>
    requires |k.queues| == PRIORITIES && t in k.tasks
  {
    var p := k.tasks[t].priority;
    k.(tasks := k.tasks[t := k.tasks[t].(status := Ready)], queues := k.queues[p := k.queues[p] + [t]])
  }

  /** scheduler_get_next_task: the head of the most urgent queue, or the idle task. */
  function Next<T>(k: Kernel<T>): T {
    var p := Lowest(k.queues, 0);
    if p < |k.queues| then k.queues[p][0] else k.idle
  }

  function Popped<T>(k: Kernel<T>): Kernel<T> {
    var p := Lowest(k.queues, 0);
    if p < |k.queues| then k.(queues := k.queues[p := k.queues[p][1..]]) else k
  }

  /** The queue without the first occurrence of t. */
  function Without<T(==)>(q: seq<T>, t: T): seq<T> {
    if q == [] then [] else if q[0] == t then q[1..] else [q[0]] + Without(q[1..], t)
  }

  lemma {:induction false} WithoutAbsent<T>(q: seq<T>, t: T)
    requires t !in q
    ensures Without(q, t) == q
  {
    if q != [] { WithoutAbsent(q[1..], t); }
  }

  /** scheduler_remove_task */
  function Removed<T(==)>(k: Kernel<T>, t: T): Kernel<T>
    requires |k.queues| == PRIORITIES && t in k.tasks
  {
    var p := k.tasks[t].priority;
    k.(queues := k.queues[p := Without(k.queues[p], t)])
  }

  /** A running current task goes to the back of its queue. */
  function Requeue<T>(k: Kernel<T>): Kernel<T>
    requires |k.queues| == PRIORITIES && k.current in k.tasks
  {
    if k.tasks[k.current].status == Running then Enqueue(k, k.current) else k
  }

  /** The next task gets a fresh slice; only a task that was not current before is marked running. */
  function Dispatch<T(==)>(k: Kernel<T>): Kernel<T>
    requires Next(k) in k.tasks
  {
    var next, k1 := Next(k), Popped(k);
    if next != k.current then
      WithTask(k1, next, k1.tasks[next].(status := Running, slice := TIME_SLICE)).(current := next)
    else
      WithTask(k1, next, k1.tasks[next].(slice := TIME_SLICE))
  }

  /** The choice at the end of a time slice. */
  function Reschedule<T(==)>(k: Kernel<T>): Kernel<T>
    requires |k.queues| == PRIORITIES && k.current in k.tasks && Next(Requeue(k)) in Requeue(k).tasks
  {
    Dispatch(Requeue(k))
  }

  /** os_scheduler: one timer tick. */
  function Tick<T(==)>(k: Kernel<T>): Kernel<T>
    requires WellFormed(k)
  {
    var t := k.tasks[k.current];
    var k1 := WithTask(k, k.current, t.(slice := if t.slice > 0 then t.slice - 1 else 0));
    SliceKeepsShape(k, k1);
    if k1.tasks[k.current].slice == 0 then Reschedule(k1) else k1
  }

  /** os_task_yield */
  function Yield<T(==)>(k: Kernel<T>): Kernel<T>
    requires WellFormed(k)
  {
    var k1 := WithTask(k, k.current, k.tasks[k.current].(slice := 0));
    SliceKeepsShape(k, k1);
    Tick(k1)
  }

  /** k1 differs from k only in time slices. */
  ghost predicate SameButSlices<T>(k: Kernel<T>, k1: Kernel<T>) {
    && k1.queues == k.queues && k1.current == k.current && k1.idle == k.idle && k1.tasks.Keys == k.tasks.Keys
    && forall t :: t in k.tasks ==> k1.tasks[t] == k.tasks[t].(slice := k1.tasks[t].slice)
  }

  lemma SliceKeepsShape<T>(k: Kernel<T>, k1: Kernel<T>)
    requires WellFormed(k) && SameButSlices(k, k1)
    ensures WellFormed(k1)
    ensures Next(Requeue(k1)) in Requeue(k1).tasks
  {
    var k2 := Requeue(k1);
    var p := Lowest(k2.queues, 0);
    if p < PRIORITIES {
      assert k2.queues[p][0] in k2.tasks;
    }
  }

  // ---- What the queue operations keep ----

  /** A kernel whose current task is not waiting in a queue. */
  ghost predicate Dispatched<T>(k: Kernel<T>) { WellFormed(k) && !Queued(k, k.current) }

  lemma EnqueueKeeps<T>(k: Kernel<T>, t: T)
    requires WellFormed(k) && t in k.tasks && !Queued(k, t)
    ensures var k' := Enqueue(k, t);
            WellFormed(k') && forall u :: u in k.tasks ==> (Queued(k', u) <==> u == t || Queued(k, u))
  {
    var k' := Enqueue(k, t);
    var p := k.tasks[t].priority;
    assert k'.queues[p] == k.queues[p] + [t];
    forall u | u in k.tasks ensures Queued(k', u) <==> u == t || Queued(k, u) {
      var q := k.tasks[u].priority;
      if q == p { assert u in k'.queues[p] <==> u in k.queues[p] || u == t; }
    }
  }

  lemma QueuedNowhere<T>(k: Kernel<T>, t: T)
    requires WellFormed(k) && t in k.tasks && !Queued(k, t)
    ensures forall p, i :: 0 <= p < PRIORITIES && 0 <= i < |k.queues[p]| ==> k.queues[p][i] != t
  {
    forall p | 0 <= p < PRIORITIES ensures t !in k.queues[p] {
      assert p == k.tasks[t].priority ==> t !in k.queues[p];
    }
  }

  /** The task at one queue position is at no other. */
  lemma QueuedOnce<T>(k: Kernel<T>, p: Priority, i: nat)
    requires WellFormed(k) && i < |k.queues[p]|
    ensures forall q, j :: 0 <= q < PRIORITIES && 0 <= j < |k.queues[q]| && k.queues[q][j] == k.queues[p][i] ==>
      q == p && j == i
  {
  }

  lemma {:induction false} WithoutMember<T>(q: seq<T>, t: T, u: T)
    requires NoDuplicates(q)
    ensures u in Without(q, t) <==> u in q && u != t
  {
    if q != [] {
      assert q == [q[0]] + q[1..];
      if q[0] == t {
        if u == t { assert u !in q[1..]; }
      } else {
        WithoutMember(q[1..], t, u);
      }
    }
  }

  lemma {:induction false} WithoutDistinct<T>(q: seq<T>, t: T)
    requires NoDuplicates(q)
    ensures NoDuplicates(Without(q, t))
  {
    if q != [] && q[0] != t {
      WithoutDistinct(q[1..], t);
      WithoutMember(q[1..], t, q[0]);
      assert q[0] !in q[1..];
    }
  }

  lemma RemovedKeeps<T>(k: Kernel<T>, t: T)
    requires WellFormed(k) && t in k.tasks
    ensures var k' := Removed(k, t);
            WellFormed(k') && forall u :: u in k.tasks ==> (Queued(k', u) <==> u != t && Queued(k, u))
  {
    var k' := Removed(k, t);
    var p := k.tasks[t].priority;
    WithoutDistinct(k.queues[p], t);
    forall q, i | 0 <= q < PRIORITIES && 0 <= i < |k'.queues[q]|
      ensures k'.queues[q][i] in k.tasks && k.tasks[k'.queues[q][i]].priority == q
    {
      var u := k'.queues[q][i];
      if q == p {
        WithoutMember(k.queues[p], t, u);
        assert u in k.queues[p];
      } else {
        assert u in k.queues[q];
      }
    }
    forall u | u in k.tasks ensures Queued(k', u) <==> u != t && Queued(k, u) {
      WithoutMember(k.queues[p], t, u);
    }
  }

  /** The dispatched task leaves its queue; everyone else stays. */
  lemma PoppedKeeps<T>(k: Kernel<T>)
    requires WellFormed(k)
    ensures Next(k) in k.tasks
    ensures var k' := Popped(k);
            WellFormed(k') && forall u :: u in k.tasks ==> (Queued(k', u) <==> u != Next(k) && Queued(k, u))
  {
    var p := Lowest(k.queues, 0);
    if p < PRIORITIES {
      var q := k.queues[p];
      assert q == [q[0]] + q[1..];
      assert q[0] in k.tasks && q[0] !in q[1..];
    }
  }

  lemma RequeueKeeps<T>(k: Kernel<T>)
    requires Dispatched(k)
    ensures var k1 := Requeue(k);
            && WellFormed(k1) && SamePriorities(k, k1) && k1.current == k.current
            && forall u :: u in k.tasks ==>
                 (Queued(k1, u) <==> (u == k.current && k.tasks[u].status == Running) || Queued(k, u))
  {
    if k.tasks[k.current].status == Running { EnqueueKeeps(k, k.current); }
  }

  lemma DispatchKeeps<T>(k: Kernel<T>)
    requires WellFormed(k)
    ensures Next(k) in k.tasks
    ensures var k' := Dispatch(k);
            && Dispatched(k') && k'.current == Next(k) && SamePriorities(k, k')
            && forall u :: u in k.tasks ==> (Queued(k', u) <==> u != Next(k) && Queued(k, u))
  {
    PoppedKeeps(k);
    SamePrioritiesWellFormed(Popped(k), Dispatch(k));
  }

  /** The same tasks with the same priorities. */
  ghost predicate SamePriorities<T>(k: Kernel<T>, k': Kernel<T>) {
    && k'.tasks.Keys == k.tasks.Keys && k'.idle == k.idle
    && forall t :: t in k.tasks ==> k'.tasks[t].priority == k.tasks[t].priority && k'.tasks[t].base == k.tasks[t].base
  }

  lemma SamePrioritiesWellFormed<T>(k: Kernel<T>, k': Kernel<T>)
    requires WellFormed(k) && SamePriorities(k, k') && k'.queues == k.queues && k'.current in k'.tasks
    ensures WellFormed(k') && forall u :: u in k.tasks ==> (Queued(k', u) <==> Queued(k, u))
  {
  }

  /** A tick never changes a priority, and never leaves the current task in a queue. */
  lemma TickKeeps<T>(k: Kernel<T>)
    requires Dispatched(k)
    ensures Dispatched(Tick(k)) && SamePriorities(k, Tick(k))
  {
    var t := k.tasks[k.current];
    var k1 := WithTask(k, k.current, t.(slice := if t.slice > 0 then t.slice - 1 else 0));
    SamePrioritiesWellFormed(k, k1);
    if k1.tasks[k.current].slice == 0 {
      RequeueKeeps(k1);
      DispatchKeeps(Requeue(k1));
    }
  }

  // ---- Conservation: when a time slice loses a task ----

  /** No other ready task is as urgent as the current one. */
  ghost predicate Alone<T>(k: Kernel<T>)
    requires WellFormed(k)
  {
    Lowest(k.queues, 0) > k.tasks[k.current].priority
  }

  lemma {:induction false} LowestOf<T>(queues: seq<seq<T>>, p: nat, r: nat)
    requires p <= r < |queues| && queues[r] != [] && forall q :: p <= q < r ==> queues[q] == []
    ensures Lowest(queues, p) == r
    decreases r - p
  {
    if p < r { LowestOf(queues, p + 1, r); }
  }

  /** At the end of a slice the current task is chosen again exactly when it is alone. */
  lemma ReselectedIffAlone<T>(k: Kernel<T>)
    requires Conserved(k)
    ensures Next(Enqueue(k, k.current)) == k.current <==> Alone(k)
  {
    var p, r := k.tasks[k.current].priority, Lowest(k.queues, 0);
    var k1 := Enqueue(k, k.current);
    if r > p {
      assert k.queues[p] == [] && k1.queues[p] == [k.current];
      LowestOf(k1.queues, 0, p);
    } else {
      assert k1.queues[r] != [] && k1.queues[r][0] == k.queues[r][0];
      LowestOf(k1.queues, 0, r);
      assert k.queues[r][0] in k.tasks && Queued(k, k.queues[r][0]);
    }
  }

  /**
   * A tick keeps the current task running and every ready task queued if and only if the slice does not end
   * or some other ready task is at least as urgent; otherwise the task chosen again stays marked ready but unqueued.
   */
  lemma TickConserves<T>(k: Kernel<T>)
    requires Conserved(k)
    ensures Conserved(Tick(k)) <==> k.tasks[k.current].slice > 1 || !Alone(k)
    ensures k.tasks[k.current].slice <= 1 && Alone(k) ==>
      Tick(k).current == k.current && Tick(k).tasks[k.current].status == Ready && Tick(k).queues == k.queues
  {
    var t := k.tasks[k.current];
    var k1 := WithTask(k, k.current, t.(slice := if t.slice > 0 then t.slice - 1 else 0));
    SamePrioritiesWellFormed(k, k1);
    if t.slice <= 1 { RescheduleConserves(k1); }
  }

  lemma RescheduleConserves<T>(k: Kernel<T>)
    requires Conserved(k)
    ensures Next(Requeue(k)) in Requeue(k).tasks
    ensures Conserved(Reschedule(k)) <==> !Alone(k)
    ensures Alone(k) ==>
      && Reschedule(k).current == k.current && Reschedule(k).tasks[k.current].status == Ready
      && Reschedule(k).queues == k.queues
  {
    var k1 := Requeue(k);
    ReselectedIffAlone(k);
    RequeueKeeps(k);
    DispatchKeeps(k1);
    if Alone(k) {
      var p := k.tasks[k.current].priority;
      assert k.queues[p] == [] && k1.queues[p] == [k.current];
      LowestOf(k1.queues, 0, p);
      assert k1.queues[p := []] == k.queues;
    }
  }

  // ---- Task operations ----

  /** Changes a task's fields, moving it to the back of the queue of its new priority if it is ready. */
  function Moved<T(==)>(k: Kernel<T>, t: T, task: Task): Kernel<T>
    requires |k.queues| == PRIORITIES && t in k.tasks
  {
    if k.tasks[t].status == Ready then Enqueue(WithTask(Removed(k, t), t, task), t) else WithTask(k, t, task)
  }

  /** A preempting yield, where the caller's condition asks for one. */
  function YieldIf<T(==)>(k: Kernel<T>, condition: bool): Kernel<T>
    requires WellFormed(k)
  {
    if condition then Yield(k) else k
  }

  /** os_task_set_priority */
  function SetPriority<T(==)>(k: Kernel<T>, t: T, p: Priority): Kernel<T>
    requires Tidy(k) && t in k.tasks
  {
    var task := k.tasks[t];
    if p == task.priority then k
    else
      MovedTidy(k, t, task.(priority := p, base := p));
      var k1 := Moved(k, t, task.(priority := p, base := p));
      YieldIf(k1, (t == k.current && p > task.priority) || p < k1.tasks[k1.current].priority)
  }

  /** os_task_raise_priority */
  function RaisePriority<T(==)>(k: Kernel<T>, t: T, p: Priority): Kernel<T>
    requires Tidy(k) && t in k.tasks
  {
    var task := k.tasks[t];
    if p >= task.priority then k
    else
      MovedTidy(k, t, task.(priority := p));
      var k1 := Moved(k, t, task.(priority := p));
      YieldIf(k1, p < k1.tasks[k1.current].priority)
  }

  /** os_task_reset_priority */
  function ResetPriority<T(==)>(k: Kernel<T>, t: T): Kernel<T>
    requires Tidy(k) && t in k.tasks
  {
    var task := k.tasks[t];
    MovedTidy(k, t, task.(priority := task.base));
    var k1 := Moved(k, t, task.(priority := task.base));
    YieldIf(k1, t == k.current && task.base > task.priority)
  }

  /** os_task_create, for a control block not in use */
  function Create<T>(k: Kernel<T>, t: T, p: Priority): Kernel<T>
    requires |k.queues| == PRIORITIES && t !in k.tasks
  {
    Enqueue(WithTask(k, t, Task(p, p, Ready, TIME_SLICE)), t)
  }

  /** os_task_suspend, or os_task_delete, before the yield of a task that does it to itself */
  function Retired<T(==)>(k: Kernel<T>, t: T, status: Status): Kernel<T>
    requires |k.queues| == PRIORITIES && t in k.tasks
  {
    WithTask(Removed(k, t), t, k.tasks[t].(status := status))
  }

  function Suspend<T(==)>(k: Kernel<T>, t: T): Kernel<T>
    requires Tidy(k) && t in k.tasks
  {
    RetiredTidy(k, t, Suspended);
    YieldIf(Retired(k, t, Suspended), t == k.current)
  }

  function Delete<T(==)>(k: Kernel<T>, t: T): Kernel<T>
    requires Tidy(k) && t in k.tasks
  {
    if t == k.idle then k
    else
      RetiredTidy(k, t, Terminated);
      YieldIf(Retired(k, t, Terminated), t == k.current)
  }

  /** os_task_resume */
  function Resume<T>(k: Kernel<T>, t: T): Kernel<T>
    requires |k.queues| == PRIORITIES && t in k.tasks
  {
    if k.tasks[t].status == Suspended then Enqueue(k, t) else k
  }

  // ---- What every task operation keeps, in every reachable kernel ----

  /** Only ready tasks are queued, each once, in the queue of its own priority. */
  ghost predicate Tidy<T>(k: Kernel<T>) {
    WellFormed(k) && forall t :: t in k.tasks && Queued(k, t) ==> k.tasks[t].status == Ready
  }

  lemma SliceTidy<T>(k: Kernel<T>, slice: nat)
    requires Tidy(k)
    ensures var k' := WithTask(k, k.current, k.tasks[k.current].(slice := slice)); Tidy(k') && SamePriorities(k, k')
  {
    SamePrioritiesWellFormed(k, WithTask(k, k.current, k.tasks[k.current].(slice := slice)));
  }

  lemma TickTidy<T>(k: Kernel<T>)
    requires Tidy(k)
    ensures Tidy(Tick(k)) && SamePriorities(k, Tick(k))
  {
    var t := k.tasks[k.current];
    var k1 := WithTask(k, k.current, t.(slice := if t.slice > 0 then t.slice - 1 else 0));
    SliceTidy(k, k1.tasks[k.current].slice);
    if k1.tasks[k.current].slice == 0 { RescheduleTidy(k1); }
  }

  lemma RescheduleTidy<T>(k: Kernel<T>)
    requires Tidy(k)
    ensures Next(Requeue(k)) in Requeue(k).tasks
    ensures Tidy(Reschedule(k)) && SamePriorities(k, Reschedule(k))
  {
    if k.tasks[k.current].status == Running { EnqueueKeeps(k, k.current); }
    assert Tidy(Requeue(k));
    DispatchKeeps(Requeue(k));
  }

  lemma YieldTidy<T>(k: Kernel<T>)
    requires Tidy(k)
    ensures Tidy(Yield(k)) && SamePriorities(k, Yield(k))
  {
    SliceTidy(k, 0);
    TickTidy(WithTask(k, k.current, k.tasks[k.current].(slice := 0)));
  }

  /** A task that is not queued may change in any way that keeps it unqueued. */
  lemma ChangeUnqueued<T>(k: Kernel<T>, t: T, task: Task)
    requires WellFormed(k) && t in k.tasks && !Queued(k, t)
    ensures var k' := WithTask(k, t, task);
            WellFormed(k') && !Queued(k', t) && forall u :: u in k.tasks && u != t ==> (Queued(k', u) <==> Queued(k, u))
  {
    var k' := WithTask(k, t, task);
    QueuedNowhere(k, t);
    assert t !in k'.queues[task.priority];
  }

  /** The queues of everyone else are unaffected, and a ready task is queued under its new priority. */
  lemma MovedTidy<T>(k: Kernel<T>, t: T, task: Task)
    requires Tidy(k) && t in k.tasks && task.status == k.tasks[t].status
    ensures var k' := Moved(k, t, task);
            && Tidy(k') && k'.current == k.current && k'.tasks == k.tasks[t := task]
            && (Queued(k', t) <==> task.status == Ready)
            && forall u :: u in k.tasks && u != t ==> (Queued(k', u) <==> Queued(k, u))
  {
    if task.status == Ready {
      RemovedKeeps(k, t);
      ChangeUnqueued(Removed(k, t), t, task);
      var k1 := WithTask(Removed(k, t), t, task);
      EnqueueKeeps(k1, t);
      assert task.(status := Ready) == task;
      assert k1.tasks[t := task] == k1.tasks;
    } else {
      ChangeUnqueued(k, t, task);
    }
  }

  lemma CreateTidy<T>(k: Kernel<T>, t: T, p: Priority)
    requires Tidy(k) && t !in k.tasks
    ensures var k1 := WithTask(k, t, Task(p, p, Ready, TIME_SLICE)); WellFormed(k1) && !Queued(k1, t)
    ensures Tidy(Create(k, t, p)) && forall u :: u in k.tasks ==> (Queued(Create(k, t, p), u) <==> Queued(k, u))
  {
    var k1 := WithTask(k, t, Task(p, p, Ready, TIME_SLICE));
    assert t !in k1.queues[p];
    EnqueueKeeps(k1, t);
  }

  lemma RetiredTidy<T>(k: Kernel<T>, t: T, status: Status)
    requires Tidy(k) && t in k.tasks
    ensures Tidy(Retired(k, t, status)) && !Queued(Retired(k, t, status), t)
  {
    RemovedKeeps(k, t);
    ChangeUnqueued(Removed(k, t), t, k.tasks[t].(status := status));
  }

  lemma YieldIfTidy<T>(k: Kernel<T>, condition: bool)
    requires Tidy(k)
    ensures Tidy(YieldIf(k, condition)) && SamePriorities(k, YieldIf(k, condition))
  {
    if condition { YieldTidy(k); }
  }
}
