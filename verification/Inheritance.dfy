/**
 * Mutexes with priority inheritance, over every interleaving of tasks. A lock call is a sequence of attempts;
 * an unlock call is two steps, since resetting the priority may give the processor away before the release.
 */
module Inheritance {
  import opened Scheduler
  import opened KernelRuns
  import opened Wrappers

  datatype Mutex<T> = Mutex(locked: bool, owner: Option<T>)

  /** `releasing` maps a task inside unlock to its mutex; `held` is the history of calls that returned OS_OK. */
  datatype System<T, M> = System(
    k: Kernel<T>, mutexes: map<M, Mutex<T>>, releasing: map<T, M>, held: set<(T, M)>)

  datatype Event<T, M> =
    | Attempt(task: T, mutex: M)
    | StartUnlock(task: T, mutex: M)
    | FinishUnlock(task: T)
    | Other(op: Op<T>)

  predicate Enabled<T(==), M(==)>(s: System<T, M>, e: Event<T, M>) {
    match e
    case Attempt(t, m) => t in s.k.tasks && t !in s.releasing && m in s.mutexes
    case StartUnlock(t, m) => t in s.k.tasks && t !in s.releasing && m in s.mutexes
    case FinishUnlock(t) => t in s.releasing
    case Other(op) => Allowed(s.k, op)
  }

  /** No task is less urgent than its base priority. */
  ghost predicate Urgent<T>(k: Kernel<T>) {
    forall t :: t in k.tasks ==> k.tasks[t].priority <= k.tasks[t].base
  }

  ghost predicate Inv<T, M>(s: System<T, M>) {
    && Tidy(s.k) && Urgent(s.k)
    && (forall m :: m in s.mutexes ==> (s.mutexes[m].locked <==> s.mutexes[m].owner.Some?))
    && (forall m :: m in s.mutexes && s.mutexes[m].owner.Some? ==> s.mutexes[m].owner.value in s.k.tasks)
    && (forall h :: h in s.held ==> h.1 in s.mutexes && s.mutexes[h.1].owner == Some(h.0))
    && (forall m :: m in s.mutexes && s.mutexes[m].owner.Some? ==> (s.mutexes[m].owner.value, m) in s.held)
    && (forall t :: t in s.releasing ==> (t, s.releasing[t]) in s.held)
  }

  /** One round of the loop in os_mutex_lock: take a free mutex, or raise its owner to at least the caller's urgency. */
  function TryLock<T(==)>(k: Kernel<T>, mutex: Mutex<T>, t: T): (Kernel<T>, Mutex<T>)
    requires Tidy(k) && t in k.tasks && (mutex.owner.Some? ==> mutex.owner.value in k.tasks)
  {
    if !mutex.locked then
      (k, Mutex(true, Some(t)))
    else if mutex.owner.Some? && k.tasks[t].priority < k.tasks[mutex.owner.value].priority then
      (RaisePriority(k, mutex.owner.value, k.tasks[t].priority), mutex)
    else
      (k, mutex)
  }

  function LockOnce<T(==), M(==)>(s: System<T, M>, t: T, m: M): System<T, M>
    requires Inv(s) && t in s.k.tasks && m in s.mutexes
  {
    var (k, mutex) := TryLock(s.k, s.mutexes[m], t);
    s.(k := k, mutexes := s.mutexes[m := mutex], held := if s.mutexes[m].locked then s.held else s.held + {(t, m)})
  }

  /** os_mutex_unlock up to and including the priority reset. */
  function UnlockFirst<T(==), M(==)>(s: System<T, M>, t: T, m: M): System<T, M>
    requires Inv(s) && t in s.k.tasks && m in s.mutexes
  {
    if s.mutexes[m].owner != Some(t) then s
    else s.(k := ResetPriority(s.k, t), releasing := s.releasing[t := m])
  }

  /** The rest of os_mutex_unlock; its closing yield is an event of its own. */
  function UnlockSecond<T(==), M(==)>(s: System<T, M>, t: T): System<T, M>
    requires Inv(s) && t in s.releasing
  {
    var m := s.releasing[t];
    s.(mutexes := s.mutexes[m := Mutex(false, None)], releasing := s.releasing - {t}, held := s.held - {(t, m)})
  }

  function Next<T(==), M(==)>(s: System<T, M>, e: Event<T, M>): System<T, M>
    requires Inv(s) && Enabled(s, e)
  {
    match e
    case Attempt(t, m) => LockOnce(s, t, m)
    case StartUnlock(t, m) => UnlockFirst(s, t, m)
    case FinishUnlock(t) => UnlockSecond(s, t)
    case Other(op) => s.(k := Step(s.k, op))
  }

  // ---- One step ----

  lemma StepUrgent<T>(k: Kernel<T>, op: Op<T>)
    requires Tidy(k) && Urgent(k) && Allowed(k, op)
    ensures Tidy(Step(k, op)) && Urgent(Step(k, op)) && k.tasks.Keys <= Step(k, op).tasks.Keys
  {
    StepTidy(k, op);
    StepReprices(k, op);
  }

  lemma KernelStepInv<T, M>(s: System<T, M>, op: Op<T>)
    requires Inv(s) && Allowed(s.k, op)
    ensures Inv(s.(k := Step(s.k, op)))
  {
    StepUrgent(s.k, op);
  }

  lemma LockInv<T, M>(s: System<T, M>, t: T, m: M)
    requires Inv(s) && t in s.k.tasks && m in s.mutexes
    ensures Inv(LockOnce(s, t, m))
  {
    var mutex := s.mutexes[m];
    if mutex.locked {
      assert s.mutexes[m := mutex] == s.mutexes;
      KernelStepInv(s, Raise(mutex.owner.value, s.k.tasks[t].priority));
    }
  }

  lemma ReleaseInv<T, M>(s: System<T, M>, t: T)
    requires Inv(s) && t in s.releasing
    ensures Inv(UnlockSecond(s, t))
  {
  }

  lemma NextInv<T, M>(s: System<T, M>, e: Event<T, M>)
    requires Inv(s) && Enabled(s, e)
    ensures Inv(Next(s, e))
  {
    match e
    case Attempt(t, m) => LockInv(s, t, m);
    case StartUnlock(t, m) => KernelStepInv(s, Reset(t));
    case FinishUnlock(t) => ReleaseInv(s, t);
    case Other(op) => KernelStepInv(s, op);
  }

  /** A mutex is taken only when nobody has it, and given up only by its holder's own unlock. */
  lemma HandOver<T, M>(s: System<T, M>, e: Event<T, M>, t: T, m: M)
    requires Inv(s) && Enabled(s, e)
    ensures (t, m) in Next(s, e).held && (t, m) !in s.held ==> e == Attempt(t, m) && forall u :: (u, m) !in s.held
    ensures (t, m) in s.held && (t, m) !in Next(s, e).held ==> e == FinishUnlock(t) && s.releasing[t] == m
  {
  }

  // ---- Whole runs ----

  ghost predicate Legal<T, M>(s: System<T, M>, es: seq<Event<T, M>>)
    requires Inv(s)
    decreases |es|
  {
    es == [] || (Enabled(s, es[0]) && (NextInv(s, es[0]); Legal(Next(s, es[0]), es[1..])))
  }

  ghost function Run<T, M>(s: System<T, M>, es: seq<Event<T, M>>): System<T, M>
    requires Inv(s) && Legal(s, es)
    decreases |es|
  {
    if es == [] then s else NextInv(s, es[0]); Run(Next(s, es[0]), es[1..])
  }

  /**
   * In every reachable state: ready queues are tidy, no task is less urgent than its base priority,
   * and no two tasks hold the same mutex.
   */
  lemma {:induction false} MutualExclusion<T, M>(s: System<T, M>, es: seq<Event<T, M>>)
    requires Inv(s) && Legal(s, es)
    ensures Inv(Run(s, es))
    ensures forall g, h :: g in Run(s, es).held && h in Run(s, es).held && g.1 == h.1 ==> g == h
    decreases |es|
  {
    if es != [] {
      NextInv(s, es[0]);
      MutualExclusion(Next(s, es[0]), es[1..]);
    }
  }

  /** The events that may make task t less urgent. */
  predicate Lowers<T(==), M>(e: Event<T, M>, t: T) {
    match e
    case StartUnlock(u, _) => u == t
    case Other(op) => (op.Set? || op.Reset?) && op.task == t
    case _ => false
  }

  // ---- Exactly when a task is boosted ----

  /** The event makes task t more urgent: an attempt by a more urgent task on a mutex of t, or a raise of t. */
  predicate Boosts<T(==), M(==)>(s: System<T, M>, e: Event<T, M>, t: T)
    requires Enabled(s, e) && t in s.k.tasks
  {
    match e
    case Attempt(w, m) =>
      s.mutexes[m].locked && s.mutexes[m].owner == Some(t) && s.k.tasks[w].priority < s.k.tasks[t].priority
    case Other(op) => op.Raise? && op.task == t && op.priority < s.k.tasks[t].priority
    case _ => false
  }

  /** An event that does not lower task t leaves its priority alone, exactly unless it boosts t; its base stays. */
  lemma BoostStep<T, M>(s: System<T, M>, e: Event<T, M>, t: T)
    requires Inv(s) && Enabled(s, e) && t in s.k.tasks && !Lowers(e, t)
    ensures var k' := Next(s, e).k;
            && t in k'.tasks && k'.tasks[t].base == s.k.tasks[t].base && k'.tasks[t].priority <= s.k.tasks[t].priority
            && (k'.tasks[t].priority < s.k.tasks[t].priority <==> Boosts(s, e, t))
  {
    match e
    case Attempt(u, m) =>
      var owner := s.mutexes[m].owner;
      if owner.Some? { StepReprices(s.k, Raise(owner.value, s.k.tasks[u].priority)); }
    case StartUnlock(u, m) => StepReprices(s.k, Reset(u));
    case FinishUnlock(u) =>
    case Other(op) => StepReprices(s.k, op);
  }

  /** Some event of the run, in the state it finds, boosts task t. */
  ghost predicate Boosted<T, M>(s: System<T, M>, es: seq<Event<T, M>>, t: T)
    requires Inv(s) && Legal(s, es) && t in s.k.tasks && forall e :: e in es ==> !Lowers(e, t)
    decreases |es|
  {
    es != [] &&
    (Boosts(s, es[0], t)
     || (NextInv(s, es[0]); BoostStep(s, es[0], t); Boosted(Next(s, es[0]), es[1..], t)))
  }

  /** Over any run that does not lower it, a task keeps its priority if and only if no event boosts it. */
  lemma {:induction false} KeepsPriorityIff<T, M>(s: System<T, M>, es: seq<Event<T, M>>, t: T)
    requires Inv(s) && Legal(s, es) && t in s.k.tasks && forall e :: e in es ==> !Lowers(e, t)
    ensures var k' := Run(s, es).k;
            && t in k'.tasks && k'.tasks[t].base == s.k.tasks[t].base && k'.tasks[t].priority <= s.k.tasks[t].priority
            && (k'.tasks[t].priority == s.k.tasks[t].priority <==> !Boosted(s, es, t))
    decreases |es|
  {
    if es != [] {
      NextInv(s, es[0]);
      BoostStep(s, es[0], t);
      KeepsPriorityIff(Next(s, es[0]), es[1..], t);
    }
  }

  /**
   * After a failed attempt the owner is at least as urgent as the waiter was, through any run in which
   * it starts no unlock and nobody sets or resets its priority.
   */
  lemma Inherits<T, M>(s: System<T, M>, w: T, m: M, es: seq<Event<T, M>>)
    requires Inv(s) && Enabled(s, Attempt(w, m)) && s.mutexes[m].locked
    requires Legal(s, [Attempt(w, m)] + es)
    requires forall e :: e in es ==> !Lowers(e, s.mutexes[m].owner.value)
    ensures var s', owner := Run(s, [Attempt(w, m)] + es), s.mutexes[m].owner.value;
            owner in s'.k.tasks && s'.k.tasks[owner].priority <= s.k.tasks[w].priority
  {
    var owner, all := s.mutexes[m].owner.value, [Attempt(w, m)] + es;
    assert all[0] == Attempt(w, m) && all[1..] == es;
    NextInv(s, all[0]);
    AttemptBoosts(s, w, m);
    KeepsPriorityIff(Next(s, all[0]), es, owner);
  }

  /** What an attempt on a mutex held by another task does to the priorities. */
  lemma AttemptBoosts<T, M>(s: System<T, M>, w: T, m: M)
    requires Inv(s) && Enabled(s, Attempt(w, m)) && s.mutexes[m].locked
    ensures var s', owner := Next(s, Attempt(w, m)), s.mutexes[m].owner.value;
            && s' == s.(k := s'.k) && s.k.tasks.Keys <= s'.k.tasks.Keys
            && s'.k.tasks[owner].base == s.k.tasks[owner].base
            && s'.k.tasks[owner].priority ==
               if s.k.tasks[w].priority < s.k.tasks[owner].priority then s.k.tasks[w].priority
               else s.k.tasks[owner].priority
  {
    assert s.mutexes[m := s.mutexes[m]] == s.mutexes;
    StepReprices(s.k, Raise(s.mutexes[m].owner.value, s.k.tasks[w].priority));
  }

  lemma UnlockResets<T, M>(s: System<T, M>, o: T, m: M)
    requires Inv(s) && Enabled(s, StartUnlock(o, m)) && s.mutexes[m].owner == Some(o)
    ensures var s' := Next(s, StartUnlock(o, m));
            && s' == s.(k := s'.k, releasing := s.releasing[o := m]) && s.k.tasks.Keys <= s'.k.tasks.Keys
            && s'.k.tasks[o].priority == s'.k.tasks[o].base == s.k.tasks[o].base
            && forall w :: w in s.k.tasks && w != o ==> s'.k.tasks[w].priority == s.k.tasks[w].priority
  {
    StepReprices(s.k, Reset(o));
  }

  lemma RunOfTwo<T, M>(s: System<T, M>, s1: System<T, M>, s2: System<T, M>, a: Event<T, M>, b: Event<T, M>)
    requires Inv(s) && Enabled(s, a) && s1 == Next(s, a) && Inv(s1) && Enabled(s1, b) && s2 == Next(s1, b) && Inv(s2)
    ensures Legal(s, [a, b]) && Run(s, [a, b]) == s2
  {
    RunOfOne(s1, s2, b);
    assert [a, b][1..] == [b];
  }

  lemma RunOfOne<T, M>(s: System<T, M>, s1: System<T, M>, a: Event<T, M>)
    requires Inv(s) && Enabled(s, a) && s1 == Next(s, a) && Inv(s1)
    ensures Legal(s, [a]) && Run(s, [a]) == s1
  {
    assert [a][1..] == [];
  }

  // ---- Unlocking ----

  /**
   * An unlock followed by any run in which the former owner neither unlocks again nor has its priority set or reset,
   * with the release at any point of it or not at all: the former owner ends at its base priority if and only if no
   * event after the reset boosted it. Any boost that comes after the reset outlives the release.
   */
  lemma UnlockRestoresIff<T, M>(s: System<T, M>, o: T, m: M, s1: System<T, M>, es: seq<Event<T, M>>)
    requires Inv(s) && Enabled(s, StartUnlock(o, m)) && s.mutexes[m].owner == Some(o)
    requires s1 == Next(s, StartUnlock(o, m))
    requires Inv(s1) && Legal(s1, es) && o in s1.k.tasks && forall e :: e in es ==> !Lowers(e, o)
    ensures Legal(s, [StartUnlock(o, m)] + es)
    ensures var s' := Run(s, [StartUnlock(o, m)] + es);
            o in s'.k.tasks && (s'.k.tasks[o].priority == s.k.tasks[o].base <==> !Boosted(s1, es, o))
  {
    UnlockResets(s, o, m);
    KeepsPriorityIff(s1, es, o);
    RunFirst(s, s1, StartUnlock(o, m), es);
  }

  /** One waiter between the two unlock steps: its boost outlives the release exactly if it is above the base. */
  lemma LateBoostLingers<T, M>(s: System<T, M>, o: T, w: T, m: M)
    requires Inv(s) && Enabled(s, StartUnlock(o, m)) && s.mutexes[m].owner == Some(o)
    requires w in s.k.tasks && w != o && w !in s.releasing
    ensures var es := [StartUnlock(o, m)] + [Attempt(w, m), FinishUnlock(o)];
            && Legal(s, es)
            && var s' := Run(s, es);
            && m in s'.mutexes && !s'.mutexes[m].locked && o in s'.k.tasks
            && (s'.k.tasks[o].priority == s.k.tasks[o].base <==> s.k.tasks[w].priority >= s.k.tasks[o].base)
  {
    var s1, es := Next(s, StartUnlock(o, m)), [Attempt(w, m), FinishUnlock(o)];
    UnlockResets(s, o, m);
    NextInv(s, StartUnlock(o, m));
    var s2 := WaitAndRelease(s1, o, w, m);
    UnlockRestoresIff(s, o, m, s1, es);
    OneBoost(s1, s2, es[0], es[1], o);
    RunFirst(s, s1, StartUnlock(o, m), es);
  }

  lemma RunFirst<T, M>(s: System<T, M>, s1: System<T, M>, a: Event<T, M>, es: seq<Event<T, M>>)
    requires Inv(s) && Enabled(s, a) && s1 == Next(s, a) && Inv(s1) && Legal(s1, es)
    ensures Legal(s, [a] + es) && Run(s, [a] + es) == Run(s1, es)
  {
    assert ([a] + es)[1..] == es;
  }

  /** A waiter tries while the owner is inside its unlock, and the owner then releases. */
  lemma WaitAndRelease<T, M>(s: System<T, M>, o: T, w: T, m: M) returns (s1: System<T, M>)
    requires Inv(s) && o in s.releasing && s.releasing[o] == m
    requires w in s.k.tasks && w !in s.releasing && m in s.mutexes && s.mutexes[m].locked
    ensures s1 == Next(s, Attempt(w, m)) && Legal(s, [Attempt(w, m), FinishUnlock(o)])
    ensures var s' := Run(s, [Attempt(w, m), FinishUnlock(o)]); m in s'.mutexes && !s'.mutexes[m].locked
  {
    s1 := Next(s, Attempt(w, m));
    AttemptBoosts(s, w, m);
    NextInv(s, Attempt(w, m));
    NextInv(s1, FinishUnlock(o));
    RunOfTwo(s, s1, Next(s1, FinishUnlock(o)), Attempt(w, m), FinishUnlock(o));
  }

  lemma ReleaseBoostsNobody<T, M>(s: System<T, M>, e: Event<T, M>, t: T)
    requires Inv(s) && Legal(s, [e]) && t in s.k.tasks && forall f :: f in [e] ==> !Lowers(f, t)
    requires e.FinishUnlock?
    ensures !Boosted(s, [e], t)
  {
    var es := [e];
    assert es[1..] == [];
  }

  /** Of two events the second of which is a release, only the first can boost. */
  lemma OneBoost<T, M>(s: System<T, M>, s1: System<T, M>, a: Event<T, M>, b: Event<T, M>, t: T)
    requires Inv(s) && Legal(s, [a, b]) && t in s.k.tasks && forall e :: e in [a, b] ==> !Lowers(e, t)
    requires b.FinishUnlock? && Enabled(s, a) && s1 == Next(s, a)
    ensures Boosted(s, [a, b], t) <==> Boosts(s, a, t)
  {
    var es := [a, b];
    assert es[0] == a && es[1..] == [b];
    NextInv(s, a);
    BoostStep(s, a, t);
    ReleaseBoostsNobody(s1, b, t);
  }
}
