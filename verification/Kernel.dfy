/** The kernel's ready queues in place: linked control blocks, heads by priority and a bitmap of non-empty queues. */
module Kernel {
  import opened Bits
  import S = Scheduler

  const MAX_TASKS := 8
  const WORDS := 8
  const PRIORITY_IDLE := 255

  class Tcb {
    var next: Tcb?
    var priority: S.Priority
    var base: S.Priority
    var status: S.Status
    var slice: nat

    constructor ()
      ensures next == null
    {
      next, priority, base, status, slice := null, 0, 0, S.Terminated, 0;
    }

    ghost function Record(): S.Task
      reads this`priority, this`base, this`status, this`slice
    {
      S.Task(priority, base, status, slice)
    }
  }

  ghost function Head(q: seq<Tcb>): Tcb? { if q == [] then null else q[0] }

  ghost function Successor(q: seq<Tcb>, i: nat): Tcb? { if i + 1 < |q| then q[i + 1] else null }

  /** The links and heads spell out the queues. */
  ghost predicate Linked(queues: seq<seq<Tcb>>, heads: array<Tcb?>, all: set<Tcb>)
    reads heads, all`next
  {
    && |queues| == heads.Length == S.PRIORITIES
    && (forall p :: 0 <= p < S.PRIORITIES ==> heads[p] == Head(queues[p]))
    && (forall p, i :: 0 <= p < S.PRIORITIES && 0 <= i < |queues[p]| ==>
          queues[p][i] in all && queues[p][i].next == Successor(queues[p], i))
  }

  /** A bit is set exactly when its queue is not empty, and no word has more than 32 bits. */
  ghost predicate Marked(queues: seq<seq<Tcb>>, words: seq<nat>) {
    && |queues| == S.PRIORITIES && |words| == WORDS
    && forall w, b :: 0 <= w < WORDS && 0 <= b ==> (Bit(words[w], b) <==> b < 32 && queues[32 * w + b] != [])
  }

  lemma WordOf(p: nat)
    requires p < S.PRIORITIES
    ensures p / 32 < WORDS && p % 32 < 32 && p == 32 * (p / 32) + p % 32
  {
  }

  lemma MarkSet(before: seq<seq<Tcb>>, words: seq<nat>, p: nat, q: seq<Tcb>)
    requires Marked(before, words) && p < S.PRIORITIES && q != []
    ensures p / 32 < WORDS
    ensures Marked(before[p := q], words[p / 32 := SetBit(words[p / 32], p % 32)])
  {
    WordOf(p);
    var words' := words[p / 32 := SetBit(words[p / 32], p % 32)];
    forall w, b | 0 <= w < WORDS && 0 <= b ensures Bit(words'[w], b) <==> b < 32 && before[p := q][32 * w + b] != [] {
      SetBitAt(words[p / 32], p % 32, b);
    }
  }

  lemma MarkCleared(before: seq<seq<Tcb>>, words: seq<nat>, p: nat)
    requires Marked(before, words) && p < S.PRIORITIES
    ensures p / 32 < WORDS
    ensures Marked(before[p := []], words[p / 32 := ClearBit(words[p / 32], p % 32)])
  {
    WordOf(p);
    var words' := words[p / 32 := ClearBit(words[p / 32], p % 32)];
    forall w, b | 0 <= w < WORDS && 0 <= b ensures Bit(words'[w], b) <==> b < 32 && before[p := []][32 * w + b] != [] {
      ClearBitAt(words[p / 32], p % 32, b);
    }
  }

  lemma MarkKept(before: seq<seq<Tcb>>, words: seq<nat>, p: nat, q: seq<Tcb>)
    requires Marked(before, words) && p < S.PRIORITIES && q != [] && before[p] != []
    ensures Marked(before[p := q], words)
  {
  }

  /** The words before w are zero and bit b is the first set one in word w: its queue is the most urgent. */
  lemma FirstMarked(queues: seq<seq<Tcb>>, words: seq<nat>, w: nat)
    requires Marked(queues, words) && w < WORDS && words[w] != 0 && forall v :: 0 <= v < w ==> words[v] == 0
    ensures Ctz(words[w]) < 32 && S.Lowest(queues, 0) == 32 * w + Ctz(words[w])
  {
    var p := 32 * w + Ctz(words[w]);
    forall q | 0 <= q < p ensures queues[q] == [] {
      WordOf(q);
      if q / 32 < w { ZeroHasNoBits(q % 32); }
      assert !Bit(words[q / 32], q % 32);
    }
    S.LowestOf(queues, 0, p);
  }

  lemma NoneMarked(queues: seq<seq<Tcb>>, words: seq<nat>)
    requires Marked(queues, words) && forall v :: 0 <= v < WORDS ==> words[v] == 0
    ensures S.Lowest(queues, 0) == S.PRIORITIES
  {
    forall q | 0 <= q < S.PRIORITIES ensures queues[q] == [] {
      WordOf(q);
      ZeroHasNoBits(q % 32);
      assert !Bit(words[q / 32], q % 32);
    }
  }

  /** One task at the end of queue p: only the old last link, or the head, changes. */
  lemma AppendLinked(before: seq<seq<Tcb>>, heads: array<Tcb?>, all: set<Tcb>, p: nat, task: Tcb)
    requires |before| == heads.Length == S.PRIORITIES && p < S.PRIORITIES && task in all && task.next == null
    requires forall q :: 0 <= q < S.PRIORITIES ==>
      heads[q] == if q == p && before[p] == [] then task else Head(before[q])
    requires forall q, i :: 0 <= q < S.PRIORITIES && 0 <= i < |before[q]| ==>
      && before[q][i] in all
      && before[q][i].next == if q == p && i == |before[p]| - 1 then task else Successor(before[q], i)
    ensures Linked(before[p := before[p] + [task]], heads, all)
  {
    var queues := before[p := before[p] + [task]];
    forall q, i | 0 <= q < S.PRIORITIES && 0 <= i < |queues[q]|
      ensures queues[q][i] in all && queues[q][i].next == Successor(queues[q], i)
    {
      if q == p && i == |before[p]| { assert queues[q][i] == task; } else { assert queues[q][i] == before[q][i]; }
    }
  }

  ghost function Cut(q: seq<Tcb>, k: nat): seq<Tcb>
    requires k < |q|
  {
    q[..k] + q[k + 1..]
  }

  /** Queue p loses its element k: only the link before it, or the head, changes. */
  lemma CutLinked(before: seq<seq<Tcb>>, heads: array<Tcb?>, all: set<Tcb>, p: nat, k: nat)
    requires |before| == heads.Length == S.PRIORITIES && p < S.PRIORITIES && k < |before[p]|
    requires forall q :: 0 <= q < S.PRIORITIES ==>
      heads[q] == if q == p && k == 0 then Successor(before[p], 0) else Head(before[q])
    requires forall q, i :: 0 <= q < S.PRIORITIES && 0 <= i < |before[q]| ==>
      before[q][i] in all
      && ((q == p && i == k)
          || before[q][i].next == if q == p && i == k - 1 then Successor(before[p], k) else Successor(before[q], i))
    ensures Linked(before[p := Cut(before[p], k)], heads, all)
  {
    var queues := before[p := Cut(before[p], k)];
    forall q, i | 0 <= q < S.PRIORITIES && 0 <= i < |queues[q]|
      ensures queues[q][i] in all && queues[q][i].next == Successor(queues[q], i)
    {
      if q == p && i >= k { assert queues[q][i] == before[q][i + 1]; } else { assert queues[q][i] == before[q][i]; }
    }
  }

  lemma {:induction false} WithoutIsCut(q: seq<Tcb>, k: nat)
    requires k < |q| && q[k] !in q[..k]
    ensures S.Without(q, q[k]) == Cut(q, k)
  {
    if k > 0 {
      var t := q[k];
      assert q[..k][0] == q[0];
      assert q[1..][..k - 1] == q[..k][1..];
      WithoutIsCut(q[1..], k - 1);
      assert Cut(q, k) == [q[0]] + Cut(q[1..], k - 1);
    }
  }

  /** The fields of the control blocks are as a value of the scheduler's state says. */
  ghost predicate Recorded(tasks: map<Tcb, S.Task>)
    reads tasks.Keys
  {
    forall t :: t in tasks ==> tasks[t] == t.Record()
  }

  /** The scheduler with nothing but a running idle task. */
  ghost function IdleOnly(t: Tcb): S.Kernel<Tcb> {
    var queues: seq<seq<Tcb>> := seq(S.PRIORITIES, _ => []);
    var tasks: map<Tcb, S.Task> := map[t := S.Task(PRIORITY_IDLE, PRIORITY_IDLE, S.Running, S.TIME_SLICE)];
    S.Kernel(queues, tasks, t, t)
  }

  lemma IdleAlone(t: Tcb, words: seq<nat>)
    requires |words| == WORDS && forall w :: 0 <= w < WORDS ==> words[w] == 0
    ensures S.Conserved(IdleOnly(t)) && S.Tidy(IdleOnly(t)) && Marked(IdleOnly(t).queues, words)
  {
    forall w, b | 0 <= w < WORDS && 0 <= b ensures !Bit(words[w], b) { ZeroHasNoBits(b); }
  }

  class Kernel {
    const ready: array<Tcb?>
    const bitmap: array<nat>
    var current: Tcb
    const idle: Tcb
    /** An 8-bit counter of the tasks created and not deleted. */
    var count: nat
    /** The value that the data structure stands for. */
    ghost var model: S.Kernel<Tcb>

    /** os_init then os_start, with no task but the idle one. */
    constructor ()
      ensures Valid() && S.Conserved(model) && fresh(ready) && fresh(bitmap) && fresh(model.tasks.Keys)
      ensures model.current == model.idle && count == 1
      ensures model.tasks == map[idle := S.Task(PRIORITY_IDLE, PRIORITY_IDLE, S.Running, S.TIME_SLICE)]
    {
      var t := new Tcb();
      t.priority, t.base, t.status, t.slice := PRIORITY_IDLE, PRIORITY_IDLE, S.Running, S.TIME_SLICE;
      ready := new Tcb?[S.PRIORITIES](_ => null);
      bitmap := new nat[WORDS](_ => 0);
      current, idle, count := t, t, 1;
      model := IdleOnly(t);
      new;
      IdleAlone(t, bitmap[..]);
    }

    /** Links, heads, bitmap and control blocks agree with the model. */
    ghost predicate Consistent()
      reads this, ready, bitmap, model.tasks.Keys
    {
      && model.current == current && model.idle == idle && Recorded(model.tasks)
      && Linked(model.queues, ready, model.tasks.Keys) && Marked(model.queues, bitmap[..])
    }

    ghost predicate Valid()
      reads this, ready, bitmap, model.tasks.Keys
    {
      Consistent() && S.Tidy(model)
    }

    /** The last task of a non-empty queue, found by walking its links. */
    method LastOf(p: S.Priority) returns (last: Tcb)
      requires Linked(model.queues, ready, model.tasks.Keys) && model.queues[p] != []
      ensures last == model.queues[p][|model.queues[p]| - 1]
    {
      ghost var q, i := model.queues[p], 0;
      last := ready[p];
      while last.next != null
        invariant 0 <= i < |q| && last == q[i]
        decreases |q| - i
      {
        last, i := last.next, i + 1;
      }
    }

    method Append(p: S.Priority, task: Tcb)
      requires Linked(model.queues, ready, model.tasks.Keys)
      requires S.WellFormed(model) && task in model.tasks && !S.Queued(model, task)
      modifies ready, model.tasks.Keys`next
      ensures Linked(model.queues[p := model.queues[p] + [task]], ready, model.tasks.Keys)
    {
      S.QueuedNowhere(model, task);
      if ready[p] == null {
        ready[p] := task;
      } else {
        var last := LastOf(p);
        S.QueuedOnce(model, p, |model.queues[p]| - 1);
        last.next := task;
      }
      task.next := null;
      AppendLinked(model.queues, ready, model.tasks.Keys, p, task);
    }

    /** Records in the bitmap that queue p is now q, which is not empty. */
    method Mark(p: S.Priority, ghost q: seq<Tcb>)
      requires Marked(model.queues, bitmap[..]) && q != []
      modifies bitmap
      ensures Marked(model.queues[p := q], bitmap[..])
    {
      WordOf(p);
      MarkSet(model.queues, bitmap[..], p, q);
      bitmap[p / 32] := SetBit(bitmap[p / 32], p % 32);
    }

    /** Clears the bit of queue p if it is empty in the new queues. */
    method Unmark(p: S.Priority, ghost queues: seq<seq<Tcb>>)
      requires Marked(model.queues, bitmap[..]) && model.queues[p] != []
      requires Linked(queues, ready, model.tasks.Keys) && queues == model.queues[p := queues[p]]
      modifies bitmap
      ensures Marked(queues, bitmap[..])
    {
      if ready[p] == null {
        WordOf(p);
        MarkCleared(model.queues, bitmap[..], p);
        bitmap[p / 32] := ClearBit(bitmap[p / 32], p % 32);
      } else {
        MarkKept(model.queues, bitmap[..], p, queues[p]);
      }
    }

    /** Sets a status once links and bitmap are already those of the new state. */
    method SetStatus(task: Tcb, status: S.Status, ghost after: S.Kernel<Tcb>)
      requires model.current == current && model.idle == idle && Recorded(model.tasks) && task in model.tasks
      requires after.tasks == model.tasks[task := model.tasks[task].(status := status)]
      requires after.current == model.current && after.idle == model.idle
      requires Linked(after.queues, ready, model.tasks.Keys) && Marked(after.queues, bitmap[..])
      modifies this`model, task`status
      ensures Consistent() && model == after && model.tasks.Keys == old(model.tasks.Keys)
    {
      task.status := status;
      model := after;
    }

    method AddReadyTask(task: Tcb)
      requires Consistent() && S.WellFormed(model) && task in model.tasks && !S.Queued(model, task)
      modifies this`model, ready, bitmap, model.tasks.Keys`next, task`status
      ensures Consistent() && model == S.Enqueue(old(model), task) && model.tasks.Keys == old(model.tasks.Keys)
    {
      ghost var after := S.Enqueue(model, task);
      Mark(task.priority, after.queues[task.priority]);
      Append(task.priority, task);
      SetStatus(task, S.Ready, after);
    }

    /** Walks queue p up to a task; k is the place where the walk stopped. */
    method Locate(p: S.Priority, task: Tcb) returns (prev: Tcb?, found: bool, ghost k: nat)
      requires Linked(model.queues, ready, model.tasks.Keys)
      ensures k <= |model.queues[p]| && task !in model.queues[p][..k] && (found <==> k < |model.queues[p]|)
      ensures found ==> model.queues[p][k] == task
      ensures prev == if k == 0 then null else model.queues[p][k - 1]
    {
      ghost var q := model.queues[p];
      var at := ready[p];
      prev, k := null, 0;
      while at != null && at != task
        invariant k <= |q| && at == if k < |q| then q[k] else null
        invariant task !in q[..k] && prev == if k == 0 then null else q[k - 1]
        decreases |q| - k
      {
        prev, at, k := at, at.next, k + 1;
      }
      found := at != null;
    }

    /** Takes element k, found behind prev, out of queue p. */
    method Unlink(p: S.Priority, prev: Tcb?, task: Tcb, ghost k: nat)
      requires Linked(model.queues, ready, model.tasks.Keys)
      requires S.WellFormed(model) && k < |model.queues[p]| && model.queues[p][k] == task
      requires prev == if k == 0 then null else model.queues[p][k - 1]
      modifies ready, model.tasks.Keys`next
      ensures Linked(model.queues[p := Cut(model.queues[p], k)], ready, model.tasks.Keys) && task.next == null
      ensures ready[p] == Head(Cut(model.queues[p], k))
    {
      S.QueuedOnce(model, p, k);
      if prev == null {
        ready[p] := task.next;
      } else {
        S.QueuedOnce(model, p, k - 1);
        prev.next := task.next;
      }
      task.next := null;
      CutLinked(model.queues, ready, model.tasks.Keys, p, k);
    }

    /** Takes element k out of queue p, keeping the bitmap in step. */
    method TakeOut(p: S.Priority, prev: Tcb?, task: Tcb, ghost k: nat, ghost queues: seq<seq<Tcb>>)
      requires Consistent() && S.WellFormed(model) && k < |model.queues[p]| && model.queues[p][k] == task
      requires prev == if k == 0 then null else model.queues[p][k - 1]
      requires queues == model.queues[p := Cut(model.queues[p], k)]
      modifies this`model, ready, bitmap, model.tasks.Keys`next
      ensures Consistent() && model == old(model).(queues := queues)
    {
      Unlink(p, prev, task, k);
      Settle(p, queues);
    }

    method Settle(p: S.Priority, ghost queues: seq<seq<Tcb>>)
      requires model.current == current && model.idle == idle && Recorded(model.tasks)
      requires Marked(model.queues, bitmap[..]) && model.queues[p] != []
      requires Linked(queues, ready, model.tasks.Keys) && queues == model.queues[p := queues[p]]
      modifies this`model, bitmap
      ensures Consistent() && model == old(model).(queues := queues)
    {
      Unmark(p, queues);
      model := model.(queues := queues);
    }

    method RemoveTask(task: Tcb)
      requires Consistent() && S.WellFormed(model) && task in model.tasks
      modifies this`model, ready, bitmap, model.tasks.Keys`next
      ensures Consistent() && model == S.Removed(old(model), task)
    {
      var p := task.priority;
      var prev, found, k := Locate(p, task);
      if found {
        WithoutIsCut(model.queues[p], k);
        TakeOut(p, prev, task, k, model.queues[p := Cut(model.queues[p], k)]);
      } else {
        S.WithoutAbsent(model.queues[p], task);
        assert model.queues[p := model.queues[p]] == model.queues;
      }
    }

    /** The most urgent non-empty queue, from the bitmap. */
    method FirstReady() returns (p: nat)
      requires Marked(model.queues, bitmap[..])
      ensures p == S.Lowest(model.queues, 0)
    {
      for w := 0 to WORDS
        invariant forall v :: 0 <= v < w ==> bitmap[v] == 0
      {
        if bitmap[w] != 0 {
          FirstMarked(model.queues, bitmap[..], w);
          return 32 * w + Ctz(bitmap[w]);
        }
      }
      NoneMarked(model.queues, bitmap[..]);
      return S.PRIORITIES;
    }

    /** The head of the most urgent queue, taken out of it; the idle task if there is none. */
    method GetNextTask() returns (task: Tcb)
      requires Consistent() && S.WellFormed(model)
      modifies this`model, ready, bitmap, model.tasks.Keys`next
      ensures Consistent() && task == S.Next(old(model)) && model == S.Popped(old(model))
    {
      var p := FirstReady();
      if p < S.PRIORITIES {
        task := ready[p];
        assert Cut(model.queues[p], 0) == model.queues[p][1..];
        TakeOut(p, null, task, 0, model.queues[p := model.queues[p][1..]]);
      } else {
        task := idle;
      }
    }

    method SetSlice(task: Tcb, slice: nat)
      requires Consistent() && task in model.tasks
      modifies this`model, task`slice
      ensures Consistent() && model == S.WithTask(old(model), task, old(model).tasks[task].(slice := slice))
      ensures model.tasks.Keys == old(model.tasks.Keys)
    {
      task.slice := slice;
      model := S.WithTask(model, task, model.tasks[task].(slice := slice));
    }

    method Run(next: Tcb)
      requires Consistent() && next in model.tasks
      modifies this`model, this`current, next`status, next`slice
      ensures Consistent() && model.tasks.Keys == old(model.tasks.Keys)
      ensures model == S.WithTask(old(model), next,
        old(model).tasks[next].(status := S.Running, slice := S.TIME_SLICE)).(current := next)
    {
      current := next;
      next.status, next.slice := S.Running, S.TIME_SLICE;
      model := S.WithTask(model, next,
        model.tasks[next].(status := S.Running, slice := S.TIME_SLICE)).(current := next);
      assert model.tasks.Keys == old(model.tasks.Keys);
      assert Linked(model.queues, ready, model.tasks.Keys);
    }

    /** Hands the processor to the next task. */
    method Dispatch()
      requires Consistent() && S.WellFormed(model)
      modifies this`model, this`current, ready, bitmap, model.tasks.Keys
      ensures S.Next(old(model)) in old(model).tasks
      ensures Consistent() && model == S.Dispatch(old(model)) && model.tasks.Keys == old(model.tasks.Keys)
    {
      S.PoppedKeeps(model);
      var next := GetNextTask();
      if next != current {
        Run(next);
      } else {
        SetSlice(next, S.TIME_SLICE);
      }
    }

    method Reschedule()
      requires Valid()
      modifies this`model, this`current, ready, bitmap, model.tasks.Keys
      ensures S.Next(S.Requeue(old(model))) in S.Requeue(old(model)).tasks
      ensures Valid() && model == S.Reschedule(old(model)) && model.tasks.Keys == old(model.tasks.Keys)
    {
      S.RescheduleTidy(model);
      if current.status == S.Running {
        S.EnqueueKeeps(model, current);
        AddReadyTask(current);
      }
      Dispatch();
    }

    /** os_scheduler: one timer tick. */
    method Tick()
      requires Valid()
      modifies this`model, this`current, ready, bitmap, model.tasks.Keys
      ensures Valid() && model == S.Tick(old(model)) && model.tasks.Keys == old(model.tasks.Keys)
    {
      var slice := if current.slice > 0 then current.slice - 1 else 0;
      S.SliceTidy(model, slice);
      SetSlice(current, slice);
      if current.slice == 0 {
        Reschedule();
      }
    }

    method Yield()
      requires Valid()
      modifies this`model, this`current, ready, bitmap, model.tasks.Keys
      ensures Valid() && model == S.Yield(old(model)) && model.tasks.Keys == old(model.tasks.Keys)
    {
      S.SliceTidy(model, 0);
      SetSlice(current, 0);
      Tick();
    }

    method SetPriorities(task: Tcb, p: S.Priority, base: S.Priority)
      requires Consistent() && task in model.tasks
      modifies this`model, task`priority, task`base
      ensures Consistent() && model == S.WithTask(old(model), task,
        old(model).tasks[task].(priority := p, base := base))
      ensures model.tasks.Keys == old(model.tasks.Keys)
    {
      task.priority, task.base := p, base;
      model := S.WithTask(model, task, model.tasks[task].(priority := p, base := base));
    }

    /** Changes priorities; a ready task leaves its queue before and joins the new one after. */
    method Move(task: Tcb, p: S.Priority, base: S.Priority)
      requires Valid() && task in model.tasks
      modifies this`model, ready, bitmap, model.tasks.Keys
      ensures Valid() && model == S.Moved(old(model), task, old(model).tasks[task].(priority := p, base := base))
      ensures model.tasks.Keys == old(model.tasks.Keys)
    {
      S.MovedTidy(model, task, model.tasks[task].(priority := p, base := base));
      if task.status == S.Ready {
        S.RemovedKeeps(model, task);
        S.ChangeUnqueued(S.Removed(model, task), task, model.tasks[task].(priority := p, base := base));
        RemoveTask(task);
        SetPriorities(task, p, base);
        AddReadyTask(task);
      } else {
        SetPriorities(task, p, base);
      }
    }

    predicate MoreUrgent(task: Tcb, other: Tcb): (b: bool)
      requires Consistent() && task in model.tasks && other in model.tasks
      reads this, ready, bitmap, model.tasks.Keys
      ensures b == (model.tasks[task].priority < model.tasks[other].priority)
    {
      task.priority < other.priority
    }

    method SetPriority(task: Tcb, p: S.Priority)
      requires Valid() && task in model.tasks
      modifies this`model, this`current, ready, bitmap, model.tasks.Keys
      ensures Valid() && model == S.SetPriority(old(model), task, p)
    {
      var before := task.priority;
      if p == before { return; }
      Move(task, p, p);
      if task == current && p > before {
        Yield();
      } else if p < current.priority {
        Yield();
      }
    }

    method RaisePriority(task: Tcb, p: S.Priority)
      requires Valid() && task in model.tasks
      modifies this`model, this`current, ready, bitmap, model.tasks.Keys
      ensures Valid() && model == S.RaisePriority(old(model), task, p)
    {
      if p >= task.priority { return; }
      Move(task, p, task.base);
      if p < current.priority {
        Yield();
      }
    }

    method ResetPriority(task: Tcb)
      requires Valid() && task in model.tasks
      modifies this`model, this`current, ready, bitmap, model.tasks.Keys
      ensures Valid() && model == S.ResetPriority(old(model), task)
    {
      var before := task.priority;
      Move(task, task.base, task.base);
      if task == current && task.priority > before {
        Yield();
      }
    }

    /** Fills in a new control block. */
    method Adopt(task: Tcb, p: S.Priority)
      requires Consistent() && task !in model.tasks
      modifies this`model, task
      ensures Consistent() && model == S.WithTask(old(model), task, S.Task(p, p, S.Ready, S.TIME_SLICE))
      ensures model.tasks.Keys == old(model.tasks.Keys) + {task}
    {
      task.next, task.priority, task.base, task.status, task.slice := null, p, p, S.Ready, S.TIME_SLICE;
      model := S.WithTask(model, task, S.Task(p, p, S.Ready, S.TIME_SLICE));
    }

    method Admit(task: Tcb, p: S.Priority)
      requires Valid() && task !in model.tasks
      modifies this`model, ready, bitmap, model.tasks.Keys`next, task
      ensures Valid() && model == S.Create(old(model), task, p)
    {
      S.CreateTidy(model, task, p);
      Adopt(task, p);
      AddReadyTask(task);
    }

    /** os_task_create, for a control block that is not in use. */
    method Create(task: Tcb, p: S.Priority) returns (ok: bool)
      requires Valid() && task !in model.tasks
      modifies this`model, this`count, ready, bitmap, model.tasks.Keys`next, task
      ensures Valid() && ok == (old(count) < MAX_TASKS)
      ensures model == if ok then S.Create(old(model), task, p) else old(model)
      ensures count == if ok then old(count) + 1 else old(count)
    {
      ok := count < MAX_TASKS;
      if ok {
        Admit(task, p);
        count := count + 1;
      }
    }

    /** Takes a task out of its queue and gives it a status in which it is never queued. */
    method Retire(task: Tcb, status: S.Status)
      requires Valid() && task in model.tasks
      modifies this`model, ready, bitmap, model.tasks.Keys
      ensures Valid() && model == S.Retired(old(model), task, status) && model.tasks.Keys == old(model.tasks.Keys)
    {
      S.RetiredTidy(model, task, status);
      RemoveTask(task);
      SetStatus(task, status, S.WithTask(model, task, model.tasks[task].(status := status)));
    }

    /** Retires a task, yielding if it is the current one. */
    method Halt(task: Tcb, status: S.Status)
      requires Valid() && task in model.tasks
      modifies this`model, this`current, ready, bitmap, model.tasks.Keys
      ensures S.WellFormed(S.Retired(old(model), task, status))
      ensures Valid() && model == S.YieldIf(S.Retired(old(model), task, status), task == old(current))
    {
      Retire(task, status);
      if task == current {
        Yield();
      }
    }

    method Suspend(task: Tcb)
      requires Valid() && task in model.tasks
      modifies this`model, this`current, ready, bitmap, model.tasks.Keys
      ensures Valid() && model == S.Suspend(old(model), task)
    {
      Halt(task, S.Suspended);
    }

    method Resume(task: Tcb)
      requires Valid() && task in model.tasks
      modifies this`model, ready, bitmap, model.tasks.Keys`next, task`status
      ensures Valid() && model == S.Resume(old(model), task)
    {
      if task.status == S.Suspended {
        S.EnqueueKeeps(model, task);
        AddReadyTask(task);
      }
    }

    method Discount()
      requires Valid()
      modifies this`count
      ensures Valid() && count == if old(count) == 0 then 255 else old(count) - 1
    {
      count := if count == 0 then 255 else count - 1;
    }

    method Delete(task: Tcb) returns (ok: bool)
      requires Valid() && task in model.tasks
      modifies this`model, this`current, this`count, ready, bitmap, model.tasks.Keys
      ensures Valid() && ok == (task != idle) && model == S.Delete(old(model), task)
      ensures count == if !ok then old(count) else if old(count) == 0 then 255 else old(count) - 1
    {
      ok := task != idle;
      if ok {
        Discount();
        Halt(task, S.Terminated);
      }
    }
  }
}
