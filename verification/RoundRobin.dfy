/** Fairness and starvation of the tick-driven scheduler over unbounded time. */
module RoundRobin {
  import opened Scheduler

  /** The kernel after n ticks with nothing else happening. */
  ghost function Ticks<T>(k: Kernel<T>, n: nat): Kernel<T>
    requires Dispatched(k)
    decreases n
  {
    if n == 0 then k
    else
      TickKeeps(k);
      Ticks(Tick(k), n - 1)
  }

  // ---- Round robin ----

  /**
   * `ring` holds the current task and, behind it, everyone waiting at its priority;
   * there are at least two of them and no ready task is more urgent.
   */
  ghost predicate Sharing<T>(k: Kernel<T>, ring: seq<T>, p: Priority) {
    && Dispatched(k) && |ring| >= 2 && NoDuplicates(ring)
    && ring == [k.current] + k.queues[p]
    && k.tasks[k.current].priority == p && k.tasks[k.current].status == Running
    && (forall q :: 0 <= q < p ==> k.queues[q] == [])
  }

  function Rotate<T>(ring: seq<T>, j: nat): seq<T>
    requires |ring| > 0
  {
    ring[j % |ring|..] + ring[..j % |ring|]
  }

  lemma RotateNext<T>(ring: seq<T>, j: nat)
    requires |ring| >= 2
    ensures var r := Rotate(ring, j); |r| == |ring| && Rotate(ring, j + 1) == r[1..] + [r[0]]
    ensures Rotate(ring, j)[0] == ring[j % |ring|]
  {
    NextIndex(j, |ring|);
  }

  lemma NextIndex(j: nat, n: nat)
    requires n >= 2
    ensures (j + 1) % n == if j % n == n - 1 then 0 else j % n + 1
  {
    var q, r := j / n, j % n;
    assert j == n * q + r;
    if r == n - 1 { ModIs(j + 1, n, q + 1, 0); } else { ModIs(j + 1, n, q, r + 1); }
  }

  lemma ModIs(a: nat, n: nat, q: nat, r: nat)
    requires r < n && a == n * q + r
    ensures a % n == r && a / n == q
  {
    DivisionUnique(n, a / n, a % n, q, r);
  }

  lemma DivisionUnique(n: nat, q': nat, r': nat, q: nat, r: nat)
    requires r < n && r' < n && n * q' + r' == n * q + r
    ensures q == q' && r == r'
  {
    if q' < q { Distribute(n, q, q'); }
    if q' > q { Distribute(n, q', q); }
  }

  lemma Distribute(n: nat, a: nat, b: nat)
    requires a > b
    ensures n * a == n * b + n * (a - b) && n * (a - b) >= n
  {
    DistributeMinus(n, a, b);
    AtLeastOnce(n, a - b);
  }

  lemma DistributeMinus(n: nat, a: nat, b: nat)
    requires a >= b
    ensures n * a == n * b + n * (a - b)
  {
  }

  lemma AtLeastOnce(n: nat, d: nat)
    requires d >= 1
    ensures n * d >= n
  {
  }

  lemma RotateDistinct<T>(ring: seq<T>)
    requires |ring| >= 2 && NoDuplicates(ring)
    ensures NoDuplicates(ring[1..] + [ring[0]])
  {
  }

  /** While the slice lasts, a tick only counts it down. */
  lemma SliceTick<T>(k: Kernel<T>, ring: seq<T>, p: Priority)
    requires Sharing(k, ring, p) && k.tasks[k.current].slice > 1
    ensures var k' := Tick(k);
            && Sharing(k', ring, p) && k'.tasks[k.current].slice == k.tasks[k.current].slice - 1
            && forall q :: 0 <= q < PRIORITIES ==> k'.queues[q] == k.queues[q]
  {
    TickKeeps(k);
  }

  /** At the end of the slice the next task of the ring takes over with a full slice. */
  lemma TurnTick<T>(k: Kernel<T>, ring: seq<T>, p: Priority)
    requires Sharing(k, ring, p) && k.tasks[k.current].slice <= 1
    ensures var k' := Tick(k);
            && Sharing(k', ring[1..] + [ring[0]], p) && k'.tasks[k'.current].slice == TIME_SLICE
            && forall q :: 0 <= q < PRIORITIES && q != p ==> k'.queues[q] == k.queues[q]
  {
    TickKeeps(k);
    var t := k.tasks[k.current];
    var k1 := WithTask(k, k.current, t.(slice := 0));
    var k2 := Requeue(k1);
    assert k2.queues[p] == k.queues[p] + [k.current];
    LowestOf(k2.queues, 0, p);
    assert k2.queues[p][0] == ring[1] && k2.queues[p][1..] == ring[2..] + [ring[0]];
    RotateDistinct(ring);
    var ring' := ring[1..] + [ring[0]];
    assert ring' == [ring[1]] + (ring[2..] + [ring[0]]);
  }

  /** The ring after m ticks of full slices: turned m / 10 times, m % 10 ticks into the current slice. */
  ghost predicate RingState<T>(k: Kernel<T>, ring: seq<T>, p: Priority, m: nat)
    requires |ring| >= 2
  {
    Sharing(k, Rotate(ring, m / TIME_SLICE), p) && k.tasks[k.current].slice == TIME_SLICE - m % TIME_SLICE
  }

  lemma RingStep<T>(k: Kernel<T>, ring: seq<T>, p: Priority, m: nat)
    requires |ring| >= 2 && RingState(k, ring, p, m)
    ensures RingState(Tick(k), ring, p, m + 1)
    ensures forall q :: 0 <= q < PRIORITIES && q != p ==> Tick(k).queues[q] == k.queues[q]
  {
    var j := m / TIME_SLICE;
    if m % TIME_SLICE < TIME_SLICE - 1 {
      assert (m + 1) / TIME_SLICE == j && (m + 1) % TIME_SLICE == m % TIME_SLICE + 1;
      SliceTick(k, Rotate(ring, j), p);
    } else {
      assert (m + 1) / TIME_SLICE == j + 1 && (m + 1) % TIME_SLICE == 0;
      RotateNext(ring, j);
      TurnTick(k, Rotate(ring, j), p);
    }
  }

  /** The whole future of a shared priority: n more ticks turn the ring on, and no other queue changes. */
  lemma {:induction false} RingFrom<T>(k: Kernel<T>, ring: seq<T>, p: Priority, m: nat, n: nat)
    requires |ring| >= 2 && RingState(k, ring, p, m)
    ensures RingState(Ticks(k, n), ring, p, m + n)
    ensures forall q :: 0 <= q < PRIORITIES && q != p ==> Ticks(k, n).queues[q] == k.queues[q]
    decreases n
  {
    if n > 0 {
      TickKeeps(k);
      RingStep(k, ring, p, m);
      RingFrom(Tick(k), ring, p, m + 1, n - 1);
    }
  }

  lemma RingStart<T>(k: Kernel<T>, ring: seq<T>, p: Priority)
    requires Sharing(k, ring, p) && 1 <= k.tasks[k.current].slice <= TIME_SLICE
    ensures RingState(k, ring, p, TIME_SLICE - k.tasks[k.current].slice)
  {
    var m := TIME_SLICE - k.tasks[k.current].slice;
    assert m / TIME_SLICE == 0 && m % TIME_SLICE == m;
    NotRotated(ring);
  }

  lemma NotRotated<T>(ring: seq<T>)
    requires |ring| > 0
    ensures Rotate(ring, 0) == ring
  {
  }

  /** Who runs at tick n: turns of exactly one time slice, round the ring, and never a less urgent task. */
  lemma RunsAt<T>(k: Kernel<T>, ring: seq<T>, p: Priority, n: nat)
    requires Sharing(k, ring, p) && 1 <= k.tasks[k.current].slice <= TIME_SLICE
    ensures var turn := (n + TIME_SLICE - k.tasks[k.current].slice) / TIME_SLICE;
            Ticks(k, n).current == ring[turn % |ring|]
  {
    RingStart(k, ring, p);
    RingFrom(k, ring, p, TIME_SLICE - k.tasks[k.current].slice, n);
    RotateNext(ring, (n + TIME_SLICE - k.tasks[k.current].slice) / TIME_SLICE);
  }

  /** The number of the turn that tick n falls into, counted from the one that is under way. */
  function TurnOf(n: nat, slice: nat): nat
    requires slice <= TIME_SLICE
  {
    (n + TIME_SLICE - slice) / TIME_SLICE
  }

  /**
   * Fairness: of any |ring| consecutive turns each task of the ring has exactly one. It runs at every tick of that
   * turn, and at no tick of the others.
   */
  lemma OneTurnEach<T>(k: Kernel<T>, ring: seq<T>, p: Priority, from: nat, t: T) returns (turn: nat)
    requires Sharing(k, ring, p) && 1 <= k.tasks[k.current].slice <= TIME_SLICE && t in ring
    ensures from <= turn < from + |ring|
    ensures forall n: nat {:trigger Ticks(k, n)} ::
      from <= TurnOf(n, k.tasks[k.current].slice) < from + |ring| ==>
        (Ticks(k, n).current == t <==> TurnOf(n, k.tasks[k.current].slice) == turn)
  {
    turn := TurnInRing(ring, from, t);
    forall n: nat | from <= TurnOf(n, k.tasks[k.current].slice) < from + |ring|
      ensures Ticks(k, n).current == t <==> TurnOf(n, k.tasks[k.current].slice) == turn
    {
      RunsAt(k, ring, p, n);
    }
  }

  lemma TurnInRing<T>(ring: seq<T>, from: nat, t: T) returns (turn: nat)
    requires |ring| >= 2 && NoDuplicates(ring) && t in ring
    ensures from <= turn < from + |ring| && ring[turn % |ring|] == t
    ensures forall j :: from <= j < from + |ring| && ring[j % |ring|] == t ==> j == turn
  {
    var n := |ring|;
    var i :| 0 <= i < n && ring[i] == t;
    turn := NextWithResidue(n, from, i);
    forall j | from <= j < from + n && ring[j % n] == t ensures j == turn {
      assert j % n == i;
      SameResidue(n, j, turn);
    }
  }

  lemma NextWithResidue(n: nat, from: nat, i: nat) returns (turn: nat)
    requires i < n
    ensures from <= turn < from + n && turn % n == i
  {
    var q, r := from / n, from % n;
    assert from == n * q + r;
    if i >= r {
      turn := from + (i - r);
      ModIs(turn, n, q, i);
    } else {
      turn := from + (i + n - r);
      assert n * (q + 1) == n * q + n;
      ModIs(turn, n, q + 1, i);
    }
  }

  lemma SameResidue(n: nat, a: nat, b: nat)
    requires n > 0 && a % n == b % n && a < b + n && b < a + n
    ensures a == b
  {
    var x, y := a / n, b / n;
    assert a == n * x + a % n && b == n * y + b % n;
    if x < y { Distribute(n, y, x); }
    if y < x { Distribute(n, x, y); }
  }

  // ---- Starvation of a task that is alone at the top ----

  /** A ready task that is neither current nor queued, and is not the idle task. */
  ghost predicate Lost<T>(k: Kernel<T>, t: T) {
    Dispatched(k) && t in k.tasks && t != k.current && t != k.idle && k.tasks[t].status == Ready && !Queued(k, t)
  }

  /** A lost task is never dispatched again by ticks. */
  lemma LostStays<T>(k: Kernel<T>, t: T)
    requires Lost(k, t)
    ensures Lost(Tick(k), t)
  {
    TickKeeps(k);
    var c := k.tasks[k.current];
    var k1 := WithTask(k, k.current, c.(slice := if c.slice > 0 then c.slice - 1 else 0));
    SamePrioritiesWellFormed(k, k1);
    if k1.tasks[k.current].slice == 0 {
      RequeueKeeps(k1);
      PoppedKeeps(Requeue(k1));
      DispatchKeeps(Requeue(k1));
      NextIsQueuedOrIdle(Requeue(k1));
    }
  }

  lemma NextIsQueuedOrIdle<T>(k: Kernel<T>)
    requires WellFormed(k)
    ensures Next(k) == k.idle || Queued(k, Next(k))
  {
    var p := Lowest(k.queues, 0);
    if p < PRIORITIES { assert k.queues[p][0] in k.tasks; }
  }

  lemma {:induction false} LostForever<T>(k: Kernel<T>, t: T, n: nat)
    requires Lost(k, t)
    ensures Lost(Ticks(k, n), t)
    decreases n
  {
    if n > 0 {
      LostStays(k, t);
      LostForever(Tick(k), t, n - 1);
    }
  }

  /** The current task was chosen again while alone: it is marked ready, is not queued, and someone else waits. */
  ghost predicate Stray<T>(k: Kernel<T>) {
    Dispatched(k) && k.tasks[k.current].status == Ready && k.current != k.idle && Lowest(k.queues, 0) < PRIORITIES
  }

  /** The second slice of a stray task is its last. */
  lemma StrayTick<T>(k: Kernel<T>)
    requires Stray(k)
    ensures if k.tasks[k.current].slice <= 1 then Lost(Tick(k), k.current)
            else
              && Stray(Tick(k)) && Tick(k).current == k.current
              && Tick(k).tasks[k.current].slice == k.tasks[k.current].slice - 1
  {
    TickKeeps(k);
    var c := k.tasks[k.current];
    var k1 := WithTask(k, k.current, c.(slice := if c.slice > 0 then c.slice - 1 else 0));
    SamePrioritiesWellFormed(k, k1);
    if c.slice <= 1 {
      DispatchKeeps(k1);
      NextIsQueuedOrIdle(k1);
      var p := Lowest(k.queues, 0);
      assert k1.queues[p][0] in k1.tasks && Queued(k1, k1.queues[p][0]);
    }
  }

  lemma {:induction false} StrayIsLost<T>(k: Kernel<T>, n: nat)
    requires Stray(k) && n >= k.tasks[k.current].slice && n >= 1
    ensures Lost(Ticks(k, n), k.current)
    decreases n
  {
    StrayTick(k);
    if k.tasks[k.current].slice <= 1 { LostForever(Tick(k), k.current, n - 1); } else { StrayIsLost(Tick(k), n - 1); }
  }

  /**
   * A task alone at the most urgent priority, with anyone at all waiting behind it, runs for what is left of its
   * slice and one more slice, and is then never dispatched again, although it stays ready.
   */
  lemma {:induction false} LoneTaskIsLost<T>(k: Kernel<T>, n: nat)
    requires Conserved(k) && Alone(k) && Lowest(k.queues, 0) < PRIORITIES && k.current != k.idle
    requires 1 <= k.tasks[k.current].slice && n >= k.tasks[k.current].slice + TIME_SLICE
    ensures Lost(Ticks(k, n), k.current)
    decreases n
  {
    LoneTick(k);
    if k.tasks[k.current].slice == 1 { StrayIsLost(Tick(k), n - 1); } else { LoneTaskIsLost(Tick(k), n - 1); }
  }

  /** A tick of a task that is alone: it goes on, or is chosen again without being queued. */
  lemma LoneTick<T>(k: Kernel<T>)
    requires Conserved(k) && Alone(k) && Lowest(k.queues, 0) < PRIORITIES && k.current != k.idle
    requires 1 <= k.tasks[k.current].slice
    ensures var k', slice := Tick(k), k.tasks[k.current].slice;
            && k'.current == k.current && k'.idle == k.idle && k'.queues == k.queues && k.current in k'.tasks
            && if slice == 1 then Stray(k') && k'.tasks[k.current].slice == TIME_SLICE
               else Conserved(k') && Alone(k') && k'.tasks[k.current].slice == slice - 1
  {
    assert Dispatched(k);
    TickKeeps(k);
    TickConserves(k);
  }
}
