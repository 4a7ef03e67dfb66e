/** The active-timer list as a sequence: sorted insertion and the expiry scan. */
module TimerList {

  const TICKS := 0x1_0000_0000
  const HALF := 0x8000_0000

  type Tick = x: int | 0 <= x < TICKS

  /** An active timer: who it is, when it expires, its period, and whether it reloads. */
  datatype Entry<T> = Entry(timer: T, expire: Tick, period: Tick, reload: bool)

  /** The expiry test: the signed 32-bit difference is not negative. */
  predicate Due(now: Tick, expire: Tick) {
    var n: int, e: int := now, expire;
    (n - e) % TICKS < HALF
  }

  /** The tick counter sum in 32-bit arithmetic. */
  function After(now: Tick, period: Tick): Tick {
    var n: int, p: int := now, period;
    (n + p) % TICKS
  }

  /** A re-armed timer is not due again at the same tick exactly when its period is between 1 and 2^31. */
  lemma RearmedNotDue(now: Tick, period: Tick)
    ensures !Due(now, After(now, period)) <==> 1 <= period <= HALF
  {
  }

  /** A reloading timer has a period with which it is not due again at once. */
  predicate Running<T>(e: Entry<T>) { e.reload ==> 1 <= e.period <= HALF }

  predicate AllRunning<T>(l: seq<Entry<T>>) { forall i :: 0 <= i < |l| ==> Running(l[i]) }

  /** Before the first entry that expires strictly later, in unsigned order. */
  function Insert<T>(l: seq<Entry<T>>, e: Entry<T>): seq<Entry<T>> {
    if l == [] || e.expire < l[0].expire then [e] + l else [l[0]] + Insert(l[1..], e)
  }

  function Rearmed<T>(e: Entry<T>, now: Tick): Entry<T> {
    e.(expire := After(now, e.period))
  }

  function DueCount<T>(l: seq<Entry<T>>, now: Tick): (k: nat)
    ensures k <= |l|
  {
    if l == [] then 0 else (if Due(now, l[0].expire) then 1 else 0) + DueCount(l[1..], now)
  }

  lemma {:induction false} InsertShape<T>(l: seq<Entry<T>>, e: Entry<T>) returns (k: nat)
    ensures k <= |l| && Insert(l, e) == l[..k] + [e] + l[k..]
    ensures forall i :: 0 <= i < k ==> l[i].expire <= e.expire
    ensures k < |l| ==> e.expire < l[k].expire
  {
    if l == [] || e.expire < l[0].expire {
      k := 0;
    } else {
      k := InsertShape(l[1..], e);
      assert l[..k + 1] == [l[0]] + l[1..][..k] && l[k + 1..] == l[1..][k..];
      k := k + 1;
    }
  }

  /** The place of an insertion is determined by its neighbours. */
  lemma InsertAt<T>(l: seq<Entry<T>>, e: Entry<T>, k: nat)
    requires k <= |l| && (forall i :: 0 <= i < k ==> l[i].expire <= e.expire) && (k < |l| ==> e.expire < l[k].expire)
    ensures Insert(l, e) == l[..k] + [e] + l[k..]
  {
    var j := InsertShape(l, e);
  }

  lemma {:induction false} InsertDueCount<T>(l: seq<Entry<T>>, e: Entry<T>, now: Tick)
    ensures DueCount(Insert(l, e), now) == DueCount(l, now) + if Due(now, e.expire) then 1 else 0
    ensures |Insert(l, e)| == |l| + 1
  {
    if l != [] && e.expire >= l[0].expire {
      InsertDueCount(l[1..], e, now);
      assert Insert(l, e)[1..] == Insert(l[1..], e);
    } else {
      assert Insert(l, e)[1..] == l;
    }
  }

  lemma InsertRunning<T>(l: seq<Entry<T>>, e: Entry<T>)
    requires AllRunning(l) && Running(e)
    ensures AllRunning(Insert(l, e))
  {
    var k := InsertShape(l, e);
  }

  /** The list after its due head is taken off and, if it reloads, put back. */
  function Popped<T>(l: seq<Entry<T>>, now: Tick): seq<Entry<T>>
    requires l != []
  {
    if l[0].reload then Insert(l[1..], Rearmed(l[0], now)) else l[1..]
  }

  lemma PoppedSmaller<T>(l: seq<Entry<T>>, now: Tick)
    requires l != [] && AllRunning(l) && Due(now, l[0].expire)
    ensures AllRunning(Popped(l, now)) && DueCount(Popped(l, now), now) == DueCount(l, now) - 1
  {
    if l[0].reload {
      RearmedNotDue(now, l[0].period);
      InsertDueCount(l[1..], Rearmed(l[0], now), now);
      InsertRunning(l[1..], Rearmed(l[0], now));
    }
  }

  /** A round of the scan leaves fewer due timers exactly when the one it fires is not due again at once. */
  lemma ProgressIffRunning<T>(l: seq<Entry<T>>, now: Tick)
    requires l != [] && Due(now, l[0].expire)
    ensures DueCount(Popped(l, now), now) < DueCount(l, now) <==> Running(l[0])
  {
    if l[0].reload {
      RearmedNotDue(now, l[0].period);
      InsertDueCount(l[1..], Rearmed(l[0], now), now);
    }
  }

  /** One pass of the expiry scan: the list it leaves and the timers it fires, in order. */
  function Process<T>(l: seq<Entry<T>>, now: Tick): (r: (seq<Entry<T>>, seq<Entry<T>>))
    requires AllRunning(l)
    ensures AllRunning(r.0)
    decreases DueCount(l, now)
  {
    if l == [] || !Due(now, l[0].expire) then (l, [])
    else
      PoppedSmaller(l, now);
      var (rest, fired) := Process(Popped(l, now), now);
      (rest, [l[0]] + fired)
  }

  /** The list without a timer. */
  function Remove<T(==)>(l: seq<Entry<T>>, t: T): seq<Entry<T>> {
    if l == [] then [] else if l[0].timer == t then l[1..] else [l[0]] + Remove(l[1..], t)
  }

  lemma {:induction false} RemoveAt<T>(l: seq<Entry<T>>, t: T, k: nat)
    requires k < |l| && l[k].timer == t && forall i :: 0 <= i < k ==> l[i].timer != t
    ensures Remove(l, t) == l[..k] + l[k + 1..]
  {
    if k > 0 {
      RemoveAt(l[1..], t, k - 1);
      assert l[..k] == [l[0]] + l[1..][..k - 1] && l[1..][k..] == l[k + 1..];
    }
  }

  lemma {:induction false} RemoveAbsent<T>(l: seq<Entry<T>>, t: T)
    requires forall i :: 0 <= i < |l| ==> l[i].timer != t
    ensures Remove(l, t) == l
  {
    if l != [] { RemoveAbsent(l[1..], t); }
  }

  /** A pass from `all` has fired `fired` so far and has `l` left to scan. */
  ghost predicate Scanning<T>(all: seq<Entry<T>>, l: seq<Entry<T>>, fired: seq<Entry<T>>, now: Tick)
    requires AllRunning(all) && AllRunning(l)
  {
    Process(all, now) == (Process(l, now).0, fired + Process(l, now).1)
  }

  lemma ScanningStep<T>(all: seq<Entry<T>>, l: seq<Entry<T>>, fired: seq<Entry<T>>, now: Tick)
    requires AllRunning(all) && AllRunning(l) && Scanning(all, l, fired, now) && l != [] && Due(now, l[0].expire)
    ensures AllRunning(Popped(l, now)) && Scanning(all, Popped(l, now), fired + [l[0]], now)
    ensures DueCount(Popped(l, now), now) < DueCount(l, now)
  {
    PoppedSmaller(l, now);
    var more := Process(Popped(l, now), now).1;
    assert fired + ([l[0]] + more) == fired + [l[0]] + more;
  }

  lemma ScanningEnds<T>(all: seq<Entry<T>>, l: seq<Entry<T>>, fired: seq<Entry<T>>, now: Tick)
    requires AllRunning(all) && AllRunning(l) && Scanning(all, l, fired, now) && (l == [] || !Due(now, l[0].expire))
    ensures Process(all, now) == (l, fired)
  {
    assert fired + [] == fired;
  }

  // ---- What one pass does ----

  predicate Sorted<T>(l: seq<Entry<T>>) {
    forall i, j :: 0 <= i < j < |l| ==> l[i].expire <= l[j].expire
  }

  predicate Distinct<T(==)>(l: seq<Entry<T>>) {
    forall i, j :: 0 <= i < j < |l| ==> l[i].timer != l[j].timer
  }

  lemma InsertMultiset<T>(l: seq<Entry<T>>, e: Entry<T>)
    ensures multiset(Insert(l, e)) == multiset(l) + multiset{e}
  {
    var k := InsertShape(l, e);
    assert l == l[..k] + l[k..];
  }

  lemma InsertSorted<T>(l: seq<Entry<T>>, e: Entry<T>)
    requires Sorted(l)
    ensures Sorted(Insert(l, e))
  {
    var k := InsertShape(l, e);
    var r := Insert(l, e);
    forall i, j | 0 <= i < j < |r| ensures r[i].expire <= r[j].expire {
      if i < k { assert r[i] == l[i]; } else if i > k { assert r[i] == l[i - 1]; }
      if j < k { assert r[j] == l[j]; } else if j > k { assert r[j] == l[j - 1]; }
    }
  }

  /** The re-armed forms of the fired timers that reload, in firing order. */
  function Reloaded<T>(fired: seq<Entry<T>>, now: Tick): seq<Entry<T>> {
    if fired == [] then []
    else (if fired[0].reload then [Rearmed(fired[0], now)] else []) + Reloaded(fired[1..], now)
  }

  function InsertAll<T>(l: seq<Entry<T>>, es: seq<Entry<T>>): seq<Entry<T>>
    decreases |es|
  {
    if es == [] then l else InsertAll(Insert(l, es[0]), es[1..])
  }

  /** Insertion skips a prefix that expires no later. */
  lemma {:induction false} InsertPast<T>(front: seq<Entry<T>>, l: seq<Entry<T>>, e: Entry<T>)
    requires forall i :: 0 <= i < |front| ==> front[i].expire <= e.expire
    ensures Insert(front + l, e) == front + Insert(l, e)
  {
    if front == [] {
      assert front + l == l;
    } else {
      assert (front + l)[1..] == front[1..] + l;
      InsertPast(front[1..], l, e);
    }
  }

  /** The due timers of a list, in order. */
  function DueOf<T>(l: seq<Entry<T>>, now: Tick): (d: seq<Entry<T>>)
    ensures |d| == DueCount(l, now)
  {
    if l == [] then [] else (if Due(now, l[0].expire) then [l[0]] else []) + DueOf(l[1..], now)
  }

  /** The due timers lead the list, and none of them is re-armed in front of a later one of them. */
  predicate Orderly<T>(l: seq<Entry<T>>, now: Tick) {
    var k := DueCount(l, now);
    && (forall i :: 0 <= i < k ==> Due(now, l[i].expire))
    && (forall i, j :: 0 <= i < j < k && l[i].reload ==> l[j].expire <= After(now, l[i].period))
  }

  lemma {:induction false} InsertDueOf<T>(l: seq<Entry<T>>, e: Entry<T>, now: Tick)
    requires !Due(now, e.expire)
    ensures DueOf(Insert(l, e), now) == DueOf(l, now)
  {
    if l != [] && e.expire >= l[0].expire {
      InsertDueOf(l[1..], e, now);
      assert Insert(l, e)[1..] == Insert(l[1..], e);
    } else {
      assert Insert(l, e)[1..] == l;
    }
  }

  /** Taking off a due head that does not reload. */
  lemma OrderlyTail<T>(l: seq<Entry<T>>, now: Tick)
    requires l != [] && Due(now, l[0].expire) && !l[0].reload
    ensures Orderly(l, now) <==> Orderly(l[1..], now)
  {
    var t, k := l[1..], DueCount(l, now);
    if Orderly(t, now) {
      forall i | 0 <= i < k ensures Due(now, l[i].expire) { if i > 0 { assert l[i] == t[i - 1]; } }
      forall i, j | 0 <= i < j < k && l[i].reload ensures l[j].expire <= After(now, l[i].period) {
        assert l[i] == t[i - 1] && l[j] == t[j - 1];
      }
    }
    if Orderly(l, now) {
      forall i | 0 <= i < k - 1 ensures Due(now, t[i].expire) { assert t[i] == l[i + 1]; }
      forall i, j | 0 <= i < j < k - 1 && t[i].reload ensures t[j].expire <= After(now, t[i].period) {
        assert t[i] == l[i + 1] && t[j] == l[j + 1];
      }
    }
  }

  /** The re-armed head goes behind all the other due timers exactly when none of them expires later than it. */
  lemma OrderlyInsert<T>(t: seq<Entry<T>>, e: Entry<T>, now: Tick)
    requires !Due(now, e.expire)
    ensures var k := DueCount(t, now);
            Orderly(Insert(t, e), now) <==> Orderly(t, now) && forall j :: 0 <= j < k ==> t[j].expire <= e.expire
  {
    var k, r := DueCount(t, now), Insert(t, e);
    InsertDueCount(t, e, now);
    var p := InsertShape(t, e);
    if p < k {
      assert r[p] == e;
      assert !(t[p].expire <= e.expire);
    } else {
      assert forall j :: 0 <= j < k ==> r[j] == t[j];
    }
  }

  lemma OrderlyPopped<T>(l: seq<Entry<T>>, now: Tick)
    requires l != [] && AllRunning(l) && Due(now, l[0].expire)
    ensures Orderly(l, now) <==> Orderly(Popped(l, now), now)
  {
    if l[0].reload {
      RearmedNotDue(now, l[0].period);
      OrderlyInsert(l[1..], Rearmed(l[0], now), now);
      OrderlyHead(l, now);
    } else {
      OrderlyTail(l, now);
    }
  }

  lemma OrderlyHead<T>(l: seq<Entry<T>>, now: Tick)
    requires l != [] && Due(now, l[0].expire) && l[0].reload
    ensures var k := DueCount(l[1..], now);
            Orderly(l, now) <==>
              Orderly(l[1..], now) && forall j :: 0 <= j < k ==> l[1..][j].expire <= After(now, l[0].period)
  {
    var h, t := l[0].(reload := false), l[1..];
    var l' := [h] + t;
    assert l'[1..] == t;
    OrderlyTail(l', now);
    var k := DueCount(l, now);
    assert forall i :: 0 < i < k ==> l'[i] == l[i] == t[i - 1];
    assert Orderly(l, now) <==> Orderly(l', now) && forall j :: 0 < j < k ==> l[j].expire <= After(now, l[0].period);
    assert (forall j :: 0 < j < k ==> l[j].expire <= After(now, l[0].period)) <==>
           (forall j :: 0 <= j < k - 1 ==> t[j].expire <= After(now, l[0].period)) by {
      assert forall j :: 0 <= j < k - 1 ==> t[j] == l[j + 1];
    }
  }

  /**
   * One pass fires due timers only, in list order, and stops early or not at all:
   * it fires every due timer if and only if the list is orderly at that tick.
   */
  lemma {:induction false} PassIffOrderly<T>(l: seq<Entry<T>>, now: Tick)
    requires AllRunning(l)
    ensures Process(l, now).1 <= DueOf(l, now)
    ensures Process(l, now).1 == DueOf(l, now) <==> Orderly(l, now)
    decreases DueCount(l, now)
  {
    if l != [] && Due(now, l[0].expire) {
      PoppedSmaller(l, now);
      PassIffOrderly(Popped(l, now), now);
      OrderlyPopped(l, now);
      if l[0].reload {
        RearmedNotDue(now, l[0].period);
        InsertDueOf(l[1..], Rearmed(l[0], now), now);
      }
    }
  }

  predicate AllDue<T>(l: seq<Entry<T>>, now: Tick) { forall i :: 0 <= i < |l| ==> Due(now, l[i].expire) }

  predicate NoneDue<T>(l: seq<Entry<T>>, now: Tick) { forall i :: 0 <= i < |l| ==> !Due(now, l[i].expire) }

  /** None of these timers is re-armed in front of a later one of them. */
  predicate Cleared<T>(l: seq<Entry<T>>, now: Tick) {
    forall i, j :: 0 <= i < j < |l| && l[i].reload ==> l[j].expire <= After(now, l[i].period)
  }

  lemma TailDue<T>(l: seq<Entry<T>>, now: Tick)
    requires l != [] && AllDue(l, now)
    ensures AllDue(l[1..], now)
  {
    var t := l[1..];
    forall i | 0 <= i < |t| ensures Due(now, t[i].expire) { assert t[i] == l[i + 1]; }
  }

  lemma TailCleared<T>(l: seq<Entry<T>>, now: Tick)
    requires l != [] && AllDue(l, now) && Cleared(l, now)
    ensures AllDue(l[1..], now) && Cleared(l[1..], now)
  {
    TailDue(l, now);
    var t := l[1..];
    forall i, j | 0 <= i < j < |t| && t[i].reload ensures t[j].expire <= After(now, t[i].period) {
      assert t[i] == l[i + 1] && t[j] == l[j + 1];
    }
  }

  /** A pass over due timers followed by others fires exactly the due ones, in list order. */
  lemma {:induction false} ProcessSplit<T>(due: seq<Entry<T>>, later: seq<Entry<T>>, now: Tick)
    requires AllRunning(due + later) && AllDue(due, now) && Cleared(due, now) && NoneDue(later, now)
    ensures Process(due + later, now) == (InsertAll(later, Reloaded(due, now)), due)
    decreases |due|
  {
    var l := due + later;
    if due == [] {
      assert l == later;
    } else {
      var h := due[0];
      assert l[0] == h && l[1..] == due[1..] + later;
      var later' := if h.reload then Insert(later, Rearmed(h, now)) else later;
      assert Popped(l, now) == due[1..] + later' by {
        if h.reload { InsertPast(due[1..], later, Rearmed(h, now)); }
      }
      PoppedSmaller(l, now);
      LaterKept(later, h, now);
      var rest := due[1..];
      TailCleared(due, now);
      ProcessSplit(rest, later', now);
      assert due == [h] + due[1..];
      if h.reload {
        var es := Reloaded(due, now);
        assert es[0] == Rearmed(h, now) && es[1..] == Reloaded(due[1..], now);
      } else {
        assert Reloaded(due, now) == Reloaded(due[1..], now);
      }
    }
  }

  lemma LaterKept<T>(later: seq<Entry<T>>, h: Entry<T>, now: Tick)
    requires Running(h) && NoneDue(later, now)
    ensures h.reload ==> NoneDue(Insert(later, Rearmed(h, now)), now)
  {
    if h.reload {
      RearmedNotDue(now, h.period);
      var k := InsertShape(later, Rearmed(h, now));
    }
  }

  lemma {:induction false} InsertAllSorted<T>(l: seq<Entry<T>>, es: seq<Entry<T>>)
    requires Sorted(l)
    ensures Sorted(InsertAll(l, es)) && multiset(InsertAll(l, es)) == multiset(l) + multiset(es)
    decreases |es|
  {
    if es != [] {
      InsertSorted(l, es[0]);
      InsertMultiset(l, es[0]);
      InsertAllSorted(Insert(l, es[0]), es[1..]);
      assert es == [es[0]] + es[1..];
    }
  }

  lemma {:induction false} DueCountPast<T>(l: seq<Entry<T>>, now: Tick, k: nat)
    requires k <= |l| && AllDue(l[..k], now)
    ensures DueCount(l, now) == k + DueCount(l[k..], now)
    decreases k
  {
    if k == 0 {
      assert l[0..] == l;
    } else {
      assert l[..k][1..] == l[1..][..k - 1] && l[..k][0] == l[0];
      TailDue(l[..k], now);
      DueCountPast(l[1..], now, k - 1);
      assert l[1..][k - 1..] == l[k..];
    }
  }

  lemma {:induction false} NoneCounted<T>(l: seq<Entry<T>>, now: Tick)
    ensures DueCount(l, now) == 0 <==> NoneDue(l, now)
  {
    if l != [] {
      NoneCounted(l[1..], now);
      assert forall i :: 0 < i < |l| ==> l[i] == l[1..][i - 1];
    }
  }

  /** Where an entry of a split list is. */
  lemma Place<T>(l: seq<Entry<T>>, due: seq<Entry<T>>, later: seq<Entry<T>>, now: Tick, i: nat)
    requires l == due + later && AllDue(due, now) && NoneDue(later, now) && i < |l|
    ensures Due(now, l[i].expire) <==> i < |due|
    ensures if i < |due| then due[i] == l[i] else later[i - |due|] == l[i]
  {
    if i < |due| { assert due[i] == l[i]; } else { assert later[i - |due|] == l[i]; }
  }

  /** Processing splits an orderly list into the entries that fire and the others. */
  lemma SplitDue<T>(l: seq<Entry<T>>, now: Tick) returns (due: seq<Entry<T>>, later: seq<Entry<T>>)
    requires AllRunning(l) && Orderly(l, now)
    ensures due == l[..DueCount(l, now)] && later == l[DueCount(l, now)..] && l == due + later
    ensures AllDue(due, now) && NoneDue(later, now)
    ensures Process(l, now) == (InsertAll(later, Reloaded(due, now)), due)
  {
    var k := DueCount(l, now);
    due, later := l[..k], l[k..];
    assert l == due + later;
    DueCountPast(l, now, k);
    NoneCounted(later, now);
    ProcessSplit(due, later, now);
  }

  /**
   * One pass over an orderly list fires exactly the timers that are due, each once, in list order; it re-arms exactly
   * those that reload, one period from now, and leaves the others as they were, sorted.
   */
  lemma ProcessExact<T>(l: seq<Entry<T>>, now: Tick) returns (rest: seq<Entry<T>>, fired: seq<Entry<T>>)
    requires AllRunning(l) && Sorted(l) && Orderly(l, now)
    ensures (rest, fired) == Process(l, now) && fired <= l && AllDue(fired, now) && NoneDue(l[|fired|..], now)
    ensures Sorted(rest) && multiset(rest) == multiset(l[|fired|..]) + multiset(Reloaded(fired, now))
  {
    var later;
    fired, later := SplitDue(l, now);
    rest := InsertAll(later, Reloaded(fired, now));
    SortedRest(l, |fired|);
    InsertAllSorted(later, Reloaded(fired, now));
  }

  lemma SortedRest<T>(l: seq<Entry<T>>, k: nat)
    requires Sorted(l) && k <= |l|
    ensures Sorted(l[k..])
  {
  }

  /** No timer expires more than half the tick range away, and re-arming does not wrap. */
  predicate NearNow<T>(l: seq<Entry<T>>, now: Tick) {
    forall i :: 0 <= i < |l| ==> Near(l[i], now)
  }

  predicate Near<T>(e: Entry<T>, now: Tick) {
    now - HALF < e.expire <= now + HALF && (e.reload ==> now + e.period < TICKS)
  }

  lemma NearDue<T>(e: Entry<T>, now: Tick)
    requires Near(e, now)
    ensures Due(now, e.expire) <==> e.expire <= now
  {
  }

  /** Without wrap-around a sorted list is orderly. */
  lemma {:induction false} NearIsOrderly<T>(l: seq<Entry<T>>, now: Tick)
    requires AllRunning(l) && Sorted(l) && NearNow(l, now)
    ensures Orderly(l, now)
  {
    forall i | 0 <= i < |l| ensures Due(now, l[i].expire) <==> l[i].expire <= now { NearDue(l[i], now); }
    DuePrefixOf(l, now);
  }

  lemma {:induction false} DuePrefixOf<T>(l: seq<Entry<T>>, now: Tick)
    requires Sorted(l) && forall i :: 0 <= i < |l| ==> (Due(now, l[i].expire) <==> l[i].expire <= now)
    ensures forall i :: 0 <= i < DueCount(l, now) ==> l[i].expire <= now
  {
    if l != [] {
      var t := l[1..];
      assert forall i :: 0 <= i < |t| ==> t[i] == l[i + 1];
      DuePrefixOf(t, now);
      if l[0].expire > now {
        NoneCounted(l, now);
      } else {
        forall i | 0 <= i < DueCount(l, now) ensures l[i].expire <= now { if i > 0 { assert l[i] == t[i - 1]; } }
      }
    }
  }

  // ---- Wrap-around ----

  /**
   * Insertion compares expiry times unsigned but expiry is tested signed. When an expiry time wraps, the list
   * order is no longer the order of expiry and the early exit hides a timer that is due.
   */
  lemma WrappedTimerHidesDue<T>(a: T, b: T)
    ensures var start: Tick := TICKS - 10;
            var first := Entry(a, After(start, 5), 5, false);
            var second := Entry(b, After(start, 20), 20, false);
            var l := Insert([first], second);
            var now: Tick := TICKS - 4;
            AllRunning(l) && Due(now, first.expire) && first in l && Process(l, now) == (l, []) && !Orderly(l, now)
  {
    var first := Entry(a, TICKS - 5, 5, false);
    var second := Entry(b, 10, 20, false);
    var l := Insert([first], second);
    assert l == [second] + [first];
    assert DueCount(l[1..], TICKS - 4) == 1;
  }
}
