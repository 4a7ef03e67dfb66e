/** Timing of software timers over whole runs of starts, stops and tick processing. */
module TimerRuns {
  import opened TimerList

  /** Calls on the timer service; starting covers restart, reset and change of period. */
  datatype Event<T> =
    | Start(timer: T, period: Tick, reload: bool, now: Tick)
    | Stop(timer: T)
    | Process(now: Tick)

  function Started<T>(e: Event<T>): Entry<T>
    requires e.Start?
  {
    Entry(e.timer, After(e.now, e.period), e.period, e.reload)
  }

  /** A reloading timer is started with a period with which it is not due again at once. */
  predicate Legal<T>(e: Event<T>) { e.Start? && e.reload ==> 1 <= e.period <= HALF }

  lemma {:induction false} RemoveRunning<T>(l: seq<Entry<T>>, t: T)
    requires AllRunning(l)
    ensures AllRunning(Remove(l, t))
  {
    if l != [] { RemoveRunning(l[1..], t); }
  }

  function Next<T(==)>(l: seq<Entry<T>>, e: Event<T>): (l': seq<Entry<T>>)
    requires AllRunning(l) && Legal(e)
    ensures AllRunning(l')
  {
    match e
    case Start(t, _, _, _) =>
      RemoveRunning(l, t);
      InsertRunning(Remove(l, t), Started(e));
      Insert(Remove(l, t), Started(e))
    case Stop(t) => RemoveRunning(l, t); Remove(l, t)
    case Process(now) => TimerList.Process(l, now).0
  }

  /** Well-formed list: sorted, without duplicates, with legal periods. */
  ghost predicate Good<T>(l: seq<Entry<T>>) { AllRunning(l) && Sorted(l) && Distinct(l) }

  /** The pass of a processing is exact: the list is orderly. */
  ghost predicate Timely<T>(l: seq<Entry<T>>, e: Event<T>) { Legal(e) && (e.Process? ==> Orderly(l, e.now)) }

  // ---- Every event keeps the list well-formed ----

  ghost predicate Absent<T>(l: seq<Entry<T>>, t: T) { forall i :: 0 <= i < |l| ==> l[i].timer != t }

  lemma InsertGood<T>(l: seq<Entry<T>>, e: Entry<T>)
    requires Good(l) && Running(e) && Absent(l, e.timer)
    ensures Good(Insert(l, e))
  {
    InsertSorted(l, e);
    InsertRunning(l, e);
    var k := InsertShape(l, e);
    var r := Insert(l, e);
    forall i, j | 0 <= i < j < |r| ensures r[i].timer != r[j].timer {
      if i < k { assert r[i] == l[i]; } else if i > k { assert r[i] == l[i - 1]; }
      if j < k { assert r[j] == l[j]; } else if j > k { assert r[j] == l[j - 1]; }
    }
  }

  lemma InsertAbsent<T>(l: seq<Entry<T>>, e: Entry<T>, t: T)
    requires Absent(l, t) && e.timer != t
    ensures Absent(Insert(l, e), t)
  {
    var k := InsertShape(l, e);
  }

  /** Position of a timer, or the length of the list. */
  lemma RemoveShape<T>(l: seq<Entry<T>>, t: T) returns (k: nat)
    requires Distinct(l)
    ensures k <= |l| && (k < |l| ==> l[k].timer == t)
    ensures Remove(l, t) == if k < |l| then l[..k] + l[k + 1..] else l
    ensures Absent(Remove(l, t), t)
  {
    if exists j :: 0 <= j < |l| && l[j].timer == t {
      k :| 0 <= k < |l| && l[k].timer == t;
      RemoveAt(l, t, k);
    } else {
      k := |l|;
      RemoveAbsent(l, t);
    }
  }

  lemma RemoveGood<T>(l: seq<Entry<T>>, t: T)
    requires Good(l)
    ensures Good(Remove(l, t)) && Absent(Remove(l, t), t)
  {
    var k := RemoveShape(l, t);
    if k < |l| { CutGood(l, k, Remove(l, t)); }
  }

  lemma CutGood<T>(l: seq<Entry<T>>, k: nat, r: seq<Entry<T>>)
    requires Good(l) && k < |l| && r == l[..k] + l[k + 1..]
    ensures Good(r)
  {
    forall i | 0 <= i < |r| ensures Running(r[i]) { assert r[i] == if i < k then l[i] else l[i + 1]; }
    forall i, j | 0 <= i < j < |r| ensures r[i].expire <= r[j].expire && r[i].timer != r[j].timer {
      var i', j' := if i < k then i else i + 1, if j < k then j else j + 1;
      assert r[i] == l[i'] && r[j] == l[j'];
    }
  }

  lemma RemoveKeeps<T>(l: seq<Entry<T>>, t: T, e: Entry<T>)
    requires Distinct(l) && e.timer != t
    ensures e in Remove(l, t) <==> e in l
  {
    var k := RemoveShape(l, t);
    if k < |l| { assert l == l[..k] + [l[k]] + l[k + 1..]; }
  }

  /** Re-arming fired timers into a list that does not hold them. */
  lemma {:induction false} ReloadGood<T>(later: seq<Entry<T>>, due: seq<Entry<T>>, now: Tick)
    requires Good(later) && AllRunning(due) && Distinct(due)
    requires forall i, j :: 0 <= i < |due| && 0 <= j < |later| ==> due[i].timer != later[j].timer
    ensures Good(InsertAll(later, Reloaded(due, now)))
    decreases |due|
  {
    if due != [] {
      var h, rest := due[0], due[1..];
      if h.reload {
        var e := Rearmed(h, now);
        InsertGood(later, e);
        forall i | 0 <= i < |rest| ensures Absent(Insert(later, e), rest[i].timer) {
          assert rest[i] == due[i + 1];
          InsertAbsent(later, e, rest[i].timer);
        }
        ReloadGood(Insert(later, e), rest, now);
        var es := Reloaded(due, now);
        assert es[0] == e && es[1..] == Reloaded(rest, now);
      } else {
        assert Reloaded(due, now) == Reloaded(rest, now);
        ReloadGood(later, rest, now);
      }
    }
  }

  /** A pass, exact or not, keeps the list well-formed, and concerns only timers that are in it. */
  lemma {:induction false} ProcessGood<T>(l: seq<Entry<T>>, now: Tick)
    requires Good(l)
    ensures Good(TimerList.Process(l, now).0)
    decreases DueCount(l, now)
  {
    if l != [] && Due(now, l[0].expire) {
      PoppedSmaller(l, now);
      PoppedGood(l, now);
      ProcessGood(Popped(l, now), now);
    }
  }

  lemma PoppedGood<T>(l: seq<Entry<T>>, now: Tick)
    requires l != [] && Good(l)
    ensures Good(Popped(l, now))
  {
    var h, t := l[..1], l[1..];
    assert l == h + t;
    GoodParts(l, h, t);
    if l[0].reload { InsertGood(t, Rearmed(l[0], now)); }
  }

  /** Every call keeps the list sorted, without duplicates and with legal periods. */
  lemma NextGood<T>(l: seq<Entry<T>>, e: Event<T>)
    requires Good(l) && Legal(e)
    ensures Good(Next(l, e))
  {
    match e
    case Start(t, _, _, _) =>
      RemoveGood(l, t);
      InsertGood(Remove(l, t), Started(e));
    case Stop(t) => RemoveGood(l, t);
    case Process(now) => ProcessGood(l, now);
  }

  lemma GoodParts<T>(l: seq<Entry<T>>, due: seq<Entry<T>>, later: seq<Entry<T>>)
    requires Good(l) && l == due + later
    ensures Good(later) && AllRunning(due) && Distinct(due)
    ensures forall i, j :: 0 <= i < |due| && 0 <= j < |later| ==> due[i].timer != later[j].timer
  {
    forall i, j | 0 <= i < j < |due| ensures due[i].timer != due[j].timer { assert due[i] == l[i] && due[j] == l[j]; }
    forall i | 0 <= i < |due| ensures Running(due[i]) { assert due[i] == l[i]; }
    forall i | 0 <= i < |later| ensures Running(later[i]) { assert later[i] == l[|due| + i]; }
    forall i, j | 0 <= i < j < |later| ensures later[i].timer != later[j].timer && later[i].expire <= later[j].expire {
      assert later[i] == l[|due| + i] && later[j] == l[|due| + j];
    }
    forall i, j | 0 <= i < |due| && 0 <= j < |later| ensures due[i].timer != later[j].timer {
      assert due[i] == l[i] && later[j] == l[|due| + j];
    }
  }

  // ---- When a timer fires ----

  predicate LegalRun<T>(events: seq<Event<T>>) { forall i :: 0 <= i < |events| ==> Legal(events[i]) }

  /** Every pass along the run is exact. */
  ghost predicate TimelyRun<T>(l: seq<Entry<T>>, events: seq<Event<T>>)
    requires AllRunning(l) && LegalRun(events)
    decreases |events|
  {
    events == [] || (Timely(l, events[0]) && TimelyRun(Next(l, events[0]), events[1..]))
  }

  /** One tick for each entry of timer x among the fired. */
  ghost function Ticks<T>(fired: seq<Entry<T>>, x: T, now: Tick): seq<Tick> {
    if fired == [] then [] else (if fired[0].timer == x then [now] else []) + Ticks(fired[1..], x, now)
  }

  /** The ticks at which timer x fires along a run. */
  ghost function Fires<T>(l: seq<Entry<T>>, events: seq<Event<T>>, x: T): seq<Tick>
    requires AllRunning(l) && LegalRun(events)
    decreases |events|
  {
    if events == [] then []
    else
      var e := events[0];
      (if e.Process? then Ticks(TimerList.Process(l, e.now).1, x, e.now) else []) + Fires(Next(l, e), events[1..], x)
  }

  /** The ticks at which a timer should fire: the first processing at which it is due, and so on each period. */
  function Expected<T>(events: seq<Event<T>>, due: Tick, period: Tick, reload: bool): seq<Tick>
    decreases |events|
  {
    if events == [] then []
    else if events[0].Process? && Due(events[0].now, due) then
      [events[0].now] + if reload then Expected(events[1..], After(events[0].now, period), period, reload) else []
    else Expected(events[1..], due, period, reload)
  }

  /** No event of the run starts or stops timer x. */
  ghost predicate Untouched<T>(events: seq<Event<T>>, x: T) {
    forall i :: 0 <= i < |events| ==> !events[i].Process? ==> events[i].timer != x
  }

  lemma {:induction false} TicksAbsent<T>(fired: seq<Entry<T>>, x: T, now: Tick)
    requires Absent(fired, x)
    ensures Ticks(fired, x, now) == []
  {
    if fired != [] { TicksAbsent(fired[1..], x, now); }
  }

  lemma {:induction false} TicksOnce<T>(fired: seq<Entry<T>>, x: T, now: Tick, k: nat)
    requires Distinct(fired) && k < |fired| && fired[k].timer == x
    ensures Ticks(fired, x, now) == [now]
    decreases k
  {
    if k == 0 { TicksAbsent(fired[1..], x, now); } else { TicksOnce(fired[1..], x, now, k - 1); }
  }

  lemma {:induction false} ReloadedAbsent<T>(later: seq<Entry<T>>, due: seq<Entry<T>>, now: Tick, x: T)
    requires Absent(later, x) && forall i :: 0 <= i < |due| && due[i].reload ==> due[i].timer != x
    ensures Absent(InsertAll(later, Reloaded(due, now)), x)
    decreases |due|
  {
    if due != [] {
      if due[0].reload {
        InsertAbsent(later, Rearmed(due[0], now), x);
        ReloadedAbsent(Insert(later, Rearmed(due[0], now)), due[1..], now, x);
        var es := Reloaded(due, now);
        assert es[0] == Rearmed(due[0], now) && es[1..] == Reloaded(due[1..], now);
      } else {
        assert Reloaded(due, now) == Reloaded(due[1..], now);
        ReloadedAbsent(later, due[1..], now, x);
      }
    }
  }

  lemma {:induction false} ReloadedHas<T>(due: seq<Entry<T>>, now: Tick, k: nat)
    requires k < |due| && due[k].reload
    ensures Rearmed(due[k], now) in Reloaded(due, now)
    decreases k
  {
    if k > 0 { ReloadedHas(due[1..], now, k - 1); }
  }

  lemma DueFires<T>(due: seq<Entry<T>>, later: seq<Entry<T>>, i: nat, now: Tick)
    requires Distinct(due) && Sorted(later) && i < |due| && Absent(later, due[i].timer)
    ensures Ticks(due, due[i].timer, now) == [now]
    ensures var rest := InsertAll(later, Reloaded(due, now));
            if due[i].reload then Rearmed(due[i], now) in rest else Absent(rest, due[i].timer)
  {
    TicksOnce(due, due[i].timer, now, i);
    if due[i].reload {
      ReloadedHas(due, now, i);
      InsertAllSorted(later, Reloaded(due, now));
      assert Rearmed(due[i], now) in multiset(InsertAll(later, Reloaded(due, now)));
    } else {
      ReloadedAbsent(later, due, now, due[i].timer);
    }
  }

  /** A due timer fires once, and is then dropped or re-armed. */
  lemma ProcessDue<T>(l: seq<Entry<T>>, i: nat, now: Tick)
    requires Good(l) && Orderly(l, now) && i < |l| && Due(now, l[i].expire)
    ensures Ticks(TimerList.Process(l, now).1, l[i].timer, now) == [now]
    ensures var rest := TimerList.Process(l, now).0;
            if l[i].reload then Rearmed(l[i], now) in rest else Absent(rest, l[i].timer)
  {
    var due, later := SplitDue(l, now);
    GoodParts(l, due, later);
    Place(l, due, later, now, i);
    DueFires(due, later, i, now);
  }

  /** A timer that is not due does not fire and stays as it is. */
  lemma ProcessLater<T>(l: seq<Entry<T>>, i: nat, now: Tick)
    requires Good(l) && Orderly(l, now) && i < |l| && !Due(now, l[i].expire)
    ensures var (rest, fired) := TimerList.Process(l, now); Ticks(fired, l[i].timer, now) == [] && l[i] in rest
  {
    var due, later := SplitDue(l, now);
    GoodParts(l, due, later);
    Place(l, due, later, now, i);
    TicksAbsent(due, l[i].timer, now);
    InsertAllSorted(later, Reloaded(due, now));
    assert l[i] in multiset(InsertAll(later, Reloaded(due, now)));
  }

  lemma NextAbsent<T>(l: seq<Entry<T>>, e: Event<T>, x: T)
    requires Good(l) && Legal(e) && Absent(l, x) && (!e.Process? ==> e.timer != x)
    ensures Absent(Next(l, e), x)
    ensures e.Process? ==> Ticks(TimerList.Process(l, e.now).1, x, e.now) == []
  {
    match e
    case Start(t, _, _, _) =>
      var k := RemoveShape(l, t);
      InsertAbsent(Remove(l, t), Started(e), x);
    case Stop(t) => var k := RemoveShape(l, t);
    case Process(now) => ProcessAbsent(l, now, x);
  }

  lemma {:induction false} ProcessAbsent<T>(l: seq<Entry<T>>, now: Tick, x: T)
    requires AllRunning(l) && Absent(l, x)
    ensures var (rest, fired) := TimerList.Process(l, now); Absent(rest, x) && Ticks(fired, x, now) == []
    decreases DueCount(l, now)
  {
    if l != [] && Due(now, l[0].expire) {
      PoppedSmaller(l, now);
      if l[0].reload { InsertAbsent(l[1..], Rearmed(l[0], now), x); }
      ProcessAbsent(Popped(l, now), now, x);
      var fired := TimerList.Process(Popped(l, now), now).1;
      assert ([l[0]] + fired)[1..] == fired;
    }
  }

  /** A timer that is not running never fires. */
  lemma {:induction false} AbsentNeverFires<T>(l: seq<Entry<T>>, events: seq<Event<T>>, x: T)
    requires Good(l) && LegalRun(events) && Untouched(events, x) && Absent(l, x)
    ensures Fires(l, events, x) == []
    decreases |events|
  {
    if events != [] {
      NextGood(l, events[0]);
      NextAbsent(l, events[0], x);
      AbsentNeverFires(Next(l, events[0]), events[1..], x);
    }
  }

  lemma NextKeeps<T>(l: seq<Entry<T>>, e: Event<T>, x: Entry<T>)
    requires Good(l) && Legal(e) && x in l && !e.Process? && e.timer != x.timer
    ensures x in Next(l, e)
  {
    RemoveKeeps(l, e.timer, x);
    if e.Start? {
      InsertMultiset(Remove(l, e.timer), Started(e));
      assert x in multiset(Next(l, e));
    }
  }

  /**
   * Over every timely run that does not touch it, across wrap-around of the tick counter too, a running timer fires
   * exactly at the first processing at which it is due, and then, if it reloads, so on from each firing.
   */
  lemma {:induction false} FiresOnTime<T>(l: seq<Entry<T>>, events: seq<Event<T>>, x: Entry<T>)
    requires Good(l) && LegalRun(events) && TimelyRun(l, events) && Untouched(events, x.timer) && x in l
    ensures Fires(l, events, x.timer) == Expected(events, x.expire, x.period, x.reload)
    decreases |events|, 0
  {
    if events != [] {
      var e, rest := events[0], events[1..];
      assert events == [e] + rest;
      NextGood(l, e);
      if !e.Process? { FiresIfQuiet(l, e, rest, x); } else { FiresIfProcessed(l, e, rest, x); }
    }
  }

  lemma {:induction false} FiresIfQuiet<T>(l: seq<Entry<T>>, e: Event<T>, rest: seq<Event<T>>, x: Entry<T>)
    requires Good(l) && LegalRun([e] + rest) && TimelyRun(l, [e] + rest) && Untouched([e] + rest, x.timer) && x in l
    requires !e.Process? && Legal(e) && Good(Next(l, e))
    ensures Fires(l, [e] + rest, x.timer) == Expected([e] + rest, x.expire, x.period, x.reload)
    decreases |rest|, 1
  {
    assert ([e] + rest)[0] == e && ([e] + rest)[1..] == rest;
    assert Timely(l, e) && e.timer != x.timer;
    NextKeeps(l, e, x);
    FiresOther(l, e, rest, x.timer);
    UntouchedRest(e, rest, x.timer);
    FiresOnTime(Next(l, e), rest, x);
  }

  lemma UntouchedRest<T>(e: Event<T>, rest: seq<Event<T>>, x: T)
    requires Untouched([e] + rest, x)
    ensures Untouched(rest, x)
  {
    assert forall i :: 0 <= i < |rest| ==> rest[i] == ([e] + rest)[i + 1];
  }

  lemma {:induction false} FiresIfProcessed<T>(l: seq<Entry<T>>, e: Event<T>, rest: seq<Event<T>>, x: Entry<T>)
    requires Good(l) && LegalRun([e] + rest) && TimelyRun(l, [e] + rest) && Untouched([e] + rest, x.timer) && x in l
    requires e.Process? && Legal(e) && Good(Next(l, e))
    ensures Fires(l, [e] + rest, x.timer) == Expected([e] + rest, x.expire, x.period, x.reload)
    decreases |rest|, 1
  {
    var l', x', fires, again := ProcessOutcome(l, e, rest, x);
    UntouchedRest(e, rest, x.timer);
    ExpectedProcess(e, rest, x.expire, x.period, x.reload);
    if again { FiresOnTime(l', rest, x'); } else { AbsentNeverFires(l', rest, x.timer); }
  }

  /** What a processing does to timer x: whether it fires, and what it is afterwards if it goes on. */
  lemma ProcessOutcome<T>(l: seq<Entry<T>>, e: Event<T>, rest: seq<Event<T>>, x: Entry<T>)
    returns (l': seq<Entry<T>>, x': Entry<T>, fires: bool, again: bool)
    requires Good(l) && LegalRun([e] + rest) && TimelyRun(l, [e] + rest) && x in l && e.Process? && Legal(e)
    requires Good(Next(l, e))
    ensures l' == Next(l, e) && Good(l') && LegalRun(rest) && TimelyRun(l', rest)
    ensures fires == Due(e.now, x.expire) && again == (!fires || x.reload)
    ensures Fires(l, [e] + rest, x.timer) == (if fires then [e.now] else []) + Fires(l', rest, x.timer)
    ensures !again ==> Absent(l', x.timer)
    ensures again ==> x' in l' && x' == if fires then Rearmed(x, e.now) else x
  {
    assert ([e] + rest)[0] == e && ([e] + rest)[1..] == rest;
    var i :| 0 <= i < |l| && l[i] == x;
    FiresProcessed(l, e, rest, i);
    l', fires := Next(l, e), Due(e.now, x.expire);
    again, x' := !fires || x.reload, x;
    if fires {
      ProcessDue(l, i, e.now);
      if x.reload { x' := Rearmed(x, e.now); }
    } else {
      ProcessLater(l, i, e.now);
    }
  }

  lemma ExpectedProcess<T>(e: Event<T>, rest: seq<Event<T>>, due: Tick, period: Tick, reload: bool)
    requires e.Process?
    ensures Expected([e] + rest, due, period, reload) ==
      if !Due(e.now, due) then Expected(rest, due, period, reload)
      else [e.now] + if reload then Expected(rest, After(e.now, period), period, reload) else []
  {
    assert ([e] + rest)[1..] == rest;
  }

  lemma LegalRest<T>(e: Event<T>, rest: seq<Event<T>>)
    requires LegalRun([e] + rest)
    ensures Legal(e) && LegalRun(rest) && ([e] + rest)[1..] == rest
  {
    assert ([e] + rest)[0] == e && forall i :: 0 <= i < |rest| ==> rest[i] == ([e] + rest)[i + 1];
  }

  lemma FiresOther<T>(l: seq<Entry<T>>, e: Event<T>, rest: seq<Event<T>>, x: T)
    requires AllRunning(l) && LegalRun([e] + rest) && !e.Process? && TimelyRun(l, [e] + rest)
    ensures Legal(e) && LegalRun(rest) && TimelyRun(Next(l, e), rest)
    ensures Fires(l, [e] + rest, x) == Fires(Next(l, e), rest, x)
  {
    LegalRest(e, rest);
  }

  lemma FiresProcessed<T>(l: seq<Entry<T>>, e: Event<T>, rest: seq<Event<T>>, i: nat)
    requires Good(l) && e.Process? && LegalRun([e] + rest) && TimelyRun(l, [e] + rest) && i < |l|
    ensures Legal(e) && LegalRun(rest) && TimelyRun(Next(l, e), rest) && Orderly(l, e.now)
    ensures Fires(l, [e] + rest, l[i].timer) ==
      (if Due(e.now, l[i].expire) then [e.now] else []) + Fires(Next(l, e), rest, l[i].timer)
  {
    LegalRest(e, rest);
    if Due(e.now, l[i].expire) { ProcessDue(l, i, e.now); } else { ProcessLater(l, i, e.now); }
  }

  /** Starting a timer and leaving it alone: it fires as if counted from the start tick. */
  lemma StartFiresOnTime<T>(l: seq<Entry<T>>, e: Event<T>, events: seq<Event<T>>)
    requires Good(l) && e.Start? && Legal(e) && LegalRun(events) && TimelyRun(Next(l, e), events)
    requires Untouched(events, e.timer)
    ensures Fires(Next(l, e), events, e.timer) == Expected(events, After(e.now, e.period), e.period, e.reload)
  {
    var l' := StartedList(l, e);
    FiresOnTime(l', events, Started(e));
  }

  lemma StartedList<T>(l: seq<Entry<T>>, e: Event<T>) returns (l': seq<Entry<T>>)
    requires Good(l) && e.Start? && Legal(e)
    ensures l' == Next(l, e) && Good(l') && Started(e) in l'
  {
    NextGood(l, e);
    l' := Next(l, e);
    InsertMultiset(Remove(l, e.timer), Started(e));
    assert Started(e) in multiset(l');
  }

  /** A one-shot timer fires at most once; each firing is due, and each next one is due a period after the last. */
  lemma {:induction false} ExpectedSpacing<T>(events: seq<Event<T>>, due: Tick, period: Tick, reload: bool)
    ensures var f := Expected(events, due, period, reload);
            && (f != [] ==> Due(f[0], due)) && (!reload ==> |f| <= 1)
            && forall i :: 0 <= i < |f| - 1 ==> Due(f[i + 1], After(f[i], period))
    decreases |events|
  {
    if events != [] {
      if events[0].Process? && Due(events[0].now, due) {
        if reload { ExpectedSpacing(events[1..], After(events[0].now, period), period, reload); }
      } else {
        ExpectedSpacing(events[1..], due, period, reload);
      }
    }
  }

  // ---- Every run within the first half of the tick range is timely ----

  /** Ticks never go back, stay below 2^31, and periods are at most 2^31. */
  predicate Clock<T>(events: seq<Event<T>>, last: Tick)
    decreases |events|
  {
    events == [] ||
    match events[0]
    case Start(_, period, _, now) => last <= now < HALF && Legal(events[0]) && period <= HALF && Clock(events[1..], now)
    case Stop(_) => Clock(events[1..], last)
    case Process(now) => last <= now < HALF && Clock(events[1..], now)
  }

  predicate ExpireBy<T>(l: seq<Entry<T>>, last: int) { forall i :: 0 <= i < |l| ==> l[i].expire <= last + HALF }

  lemma {:induction false} ReloadedBy<T>(later: seq<Entry<T>>, due: seq<Entry<T>>, now: Tick)
    requires ExpireBy(later, now) && AllRunning(due) && now < HALF
    ensures ExpireBy(InsertAll(later, Reloaded(due, now)), now)
    decreases |due|
  {
    if due != [] {
      if due[0].reload {
        InsertBy(later, Rearmed(due[0], now), now);
        ReloadedBy(Insert(later, Rearmed(due[0], now)), due[1..], now);
        var es := Reloaded(due, now);
        assert es[0] == Rearmed(due[0], now) && es[1..] == Reloaded(due[1..], now);
      } else {
        assert Reloaded(due, now) == Reloaded(due[1..], now);
        ReloadedBy(later, due[1..], now);
      }
    }
  }

  lemma NextExpireBy<T>(l: seq<Entry<T>>, e: Event<T>, last: Tick)
    requires Good(l) && ExpireBy(l, last) && Legal(e) && (!e.Stop? ==> last <= e.now < HALF)
    requires e.Start? ==> e.period <= HALF
    ensures ExpireBy(Next(l, e), if e.Stop? then last else e.now)
  {
    match e
    case Start(t, period, _, now) =>
      RemoveBy(l, t, now);
      InsertBy(Remove(l, t), Started(e), now);
    case Stop(t) => RemoveBy(l, t, last);
    case Process(now) => ProcessExpireBy(l, now);
  }

  lemma ProcessExpireBy<T>(l: seq<Entry<T>>, now: Tick)
    requires Good(l) && ExpireBy(l, now) && now < HALF
    ensures ExpireBy(TimerList.Process(l, now).0, now)
  {
    EarlyIsOrderly(l, now);
    var due, later := SplitDue(l, now);
    GoodParts(l, due, later);
    LaterExpireBy(l, due, later, now);
    ReloadedBy(later, due, now);
  }

  lemma LaterExpireBy<T>(l: seq<Entry<T>>, due: seq<Entry<T>>, later: seq<Entry<T>>, last: int)
    requires l == due + later && ExpireBy(l, last)
    ensures ExpireBy(later, last)
  {
    forall j | 0 <= j < |later| ensures later[j].expire <= last + HALF { assert later[j] == l[|due| + j]; }
  }

  lemma RemoveBy<T>(l: seq<Entry<T>>, t: T, last: int)
    requires Distinct(l) && ExpireBy(l, last)
    ensures ExpireBy(Remove(l, t), last)
  {
    var k := RemoveShape(l, t);
  }

  lemma InsertBy<T>(l: seq<Entry<T>>, e: Entry<T>, last: int)
    requires ExpireBy(l, last) && e.expire <= last + HALF
    ensures ExpireBy(Insert(l, e), last)
  {
    var k := InsertShape(l, e);
  }

  lemma EarlyIsOrderly<T>(l: seq<Entry<T>>, now: Tick)
    requires Good(l) && ExpireBy(l, now) && now < HALF
    ensures Orderly(l, now)
  {
    NearIsOrderly(l, now);
  }

  lemma {:induction false} ClockIsLegal<T>(events: seq<Event<T>>, last: Tick)
    requires Clock(events, last)
    ensures LegalRun(events)
    decreases |events|
  {
    if events != [] {
      ClockIsLegal(events[1..], if events[0].Stop? then last else events[0].now);
      assert forall i :: 0 < i < |events| ==> events[i] == events[1..][i - 1];
    }
  }

  lemma {:induction false} EarlyRunIsTimely<T>(l: seq<Entry<T>>, events: seq<Event<T>>, last: Tick)
    requires Good(l) && ExpireBy(l, last) && Clock(events, last) && last < HALF
    ensures LegalRun(events) && TimelyRun(l, events)
    decreases |events|
  {
    ClockIsLegal(events, last);
    if events != [] {
      var e := events[0];
      if e.Process? { EarlyIsOrderly(l, e.now); }
      NextGood(l, e);
      NextExpireBy(l, e, last);
      EarlyRunIsTimely(Next(l, e), events[1..], if e.Stop? then last else e.now);
    }
  }

  /** The same in plain arithmetic: the first processing at tick d or later, and so on one period from each firing. */
  function Planned<T>(events: seq<Event<T>>, due: int, period: int, reload: bool): seq<Tick>
    decreases |events|
  {
    if events == [] then []
    else if events[0].Process? && events[0].now >= due then
      [events[0].now] + if reload then Planned(events[1..], events[0].now + period, period, reload) else []
    else Planned(events[1..], due, period, reload)
  }

  /** In the first half of the tick range a timer fires at the ticks that plain arithmetic gives. */
  lemma {:induction false} EarlyExpected<T>(events: seq<Event<T>>, last: Tick, due: Tick, period: Tick, reload: bool)
    requires Clock(events, last) && last < HALF && due <= last + HALF && period <= HALF
    ensures Expected(events, due, period, reload) == Planned(events, due, period, reload)
    decreases |events|
  {
    if events != [] {
      var now := if events[0].Stop? then last else events[0].now;
      if events[0].Process? && now >= due {
        EarlyExpected(events[1..], now, After(now, period), period, reload);
      } else {
        EarlyExpected(events[1..], now, due, period, reload);
      }
    }
  }
}
