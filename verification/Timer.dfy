/** Software timers: the linked list of active timers that the kernel splices in place. */
module Timer {
  import opened TimerList

  class Timer {
    var next: Timer?
    var expire: Tick
    var period: Tick
    var reload: bool
    var active: bool

    constructor (period: Tick, reload: bool)
      ensures this.period == period && this.reload == reload && !active && next == null
    {
      this.period, this.reload, active, next, expire := period, reload, false, null, 0;
    }

    ghost function Entry(): Entry<Timer>
      reads this
    {
      TimerList.Entry(this, expire, period, reload)
    }
  }

  ghost function Nodes(list: seq<Timer>): set<Timer> { set x | x in list }

  /** The node that follows position i. */
  ghost function Successor(list: seq<Timer>, i: nat): Timer? {
    if i + 1 < |list| then list[i + 1] else null
  }

  ghost predicate Linked(list: seq<Timer>, head: Timer?)
    reads Nodes(list)
  {
    && head == (if list == [] then null else list[0])
    && (forall i {:trigger list[i].next} :: 0 <= i < |list| ==> list[i].next == Successor(list, i))
    && (forall i, j :: 0 <= i < j < |list| ==> list[i] != list[j])
  }

  ghost function Entries(list: seq<Timer>): (es: seq<Entry<Timer>>)
    reads Nodes(list)
  {
    seq(|list|, i requires 0 <= i < |list| reads Nodes(list) => list[i].Entry())
  }

  /** A list with t put in at position k. */
  ghost function Spliced(list: seq<Timer>, k: nat, t: Timer): seq<Timer>
    requires k <= |list|
  {
    list[..k] + [t] + list[k..]
  }

  /** Links that follow a splice form a list again. */
  lemma SplicedLinked(before: seq<Timer>, k: nat, t: Timer, head: Timer?)
    requires k <= |before| && t !in before
    requires forall i, j :: 0 <= i < j < |before| ==> before[i] != before[j]
    requires head == if k == 0 then t else before[0]
    requires forall i {:trigger before[i].next} :: 0 <= i < |before| ==>
      before[i].next == if i == k - 1 then t else Successor(before, i)
    requires t.next == if k < |before| then before[k] else null
    ensures Linked(Spliced(before, k, t), head)
  {
    var list := Spliced(before, k, t);
    forall i | 0 <= i < |list| ensures list[i].next == Successor(list, i) {
      if i < k { assert list[i] == before[i]; } else if i > k { assert list[i] == before[i - 1]; }
    }
  }

  /** Position k is behind all entries that expire no later, and only those. */
  ghost predicate InPlace(es: seq<Entry<Timer>>, expire: Tick, k: nat) {
    k <= |es| && (forall j :: 0 <= j < k ==> es[j].expire <= expire) && (k < |es| ==> expire < es[k].expire)
  }

  lemma InsertInPlace(es: seq<Entry<Timer>>, e: Entry<Timer>, k: nat, es': seq<Entry<Timer>>)
    requires InPlace(es, e.expire, k) && es' == es[..k] + [e] + es[k..]
    ensures es' == Insert(es, e)
  {
    InsertAt(es, e, k);
  }

  lemma SplicedMembers(before: seq<Timer>, k: nat, t: Timer)
    requires k <= |before|
    ensures var list := Spliced(before, k, t);
            && |list| == |before| + 1 && Nodes(list) == Nodes(before) + {t}
            && forall x :: x in list <==> x == t || x in before
  {
    var list := Spliced(before, k, t);
    assert before == before[..k] + before[k..];
    forall x ensures x in list <==> x == t || x in before {}
  }

  lemma SplicedEntries(before: seq<Timer>, k: nat, t: Timer)
    requires k <= |before|
    ensures Entries(Spliced(before, k, t)) == Entries(before)[..k] + [t.Entry()] + Entries(before)[k..]
  {
    var list, es := Spliced(before, k, t), Entries(before);
    var es' := es[..k] + [t.Entry()] + es[k..];
    forall i | 0 <= i < |list| ensures list[i].Entry() == es'[i] {
      if i < k { assert list[i] == before[i]; } else if i > k { assert list[i] == before[i - 1]; }
    }
  }

  /** A list without its element at position k. */
  ghost function Cut(list: seq<Timer>, k: nat): seq<Timer>
    requires k < |list|
  {
    list[..k] + list[k + 1..]
  }

  lemma CutLinked(before: seq<Timer>, k: nat, head: Timer?)
    requires k < |before|
    requires forall i, j :: 0 <= i < j < |before| ==> before[i] != before[j]
    requires head == if k > 0 then before[0] else Successor(before, 0)
    requires forall i {:trigger before[i].next} :: 0 <= i < |before| && i != k ==>
      before[i].next == if i == k - 1 then Successor(before, k) else Successor(before, i)
    ensures Linked(Cut(before, k), head)
  {
    var list := Cut(before, k);
    forall i | 0 <= i < |list| ensures list[i].next == Successor(list, i) {
      if i < k { assert list[i] == before[i]; } else { assert list[i] == before[i + 1]; }
    }
  }

  lemma CutEntries(before: seq<Timer>, k: nat)
    requires k < |before|
    ensures Entries(Cut(before, k)) == Entries(before)[..k] + Entries(before)[k + 1..]
  {
    var list, es := Cut(before, k), Entries(before);
    var es' := es[..k] + es[k + 1..];
    forall i | 0 <= i < |list| ensures list[i].Entry() == es'[i] {
      if i < k { assert list[i] == before[i]; } else { assert list[i] == before[i + 1]; }
    }
  }

  lemma CutNodes(before: seq<Timer>, k: nat)
    requires k < |before| && forall i, j :: 0 <= i < j < |before| ==> before[i] != before[j]
    ensures Nodes(Cut(before, k)) == Nodes(before) - {before[k]}
  {
    var list := Cut(before, k);
    forall i | 0 <= i < |before| && i != k ensures before[i] in list {
      if i < k { assert list[i] == before[i]; } else { assert list[i - 1] == before[i]; }
    }
  }

  /** What is left behind the head of a list, as the links spell it out. */
  lemma TailOf(before: seq<Timer>, head: Timer?) returns (tail: seq<Timer>)
    requires before != [] && Linked(before, before[0]) && head == before[0].next
    ensures tail == before[1..] && Linked(tail, head) && before[0] !in tail && |tail| == |before| - 1
    ensures Nodes(tail) == Nodes(before) - {before[0]} && Entries(tail) == Entries(before)[1..]
    ensures forall t :: t in tail ==> t in before
  {
    tail := before[1..];
    assert Cut(before, 0) == tail;
    CutLinked(before, 0, head);
    CutNodes(before, 0);
    CutEntries(before, 0);
  }

  class Manager {
    var head: Timer?
    var count: nat
    ghost var list: seq<Timer>

    ghost predicate Valid()
      reads this, Nodes(list)
    {
      Linked(list, head) && count == |list| && forall i :: 0 <= i < |list| ==> list[i].active
    }

    constructor ()
      ensures Valid() && list == []
    {
      head, count, list := null, 0, [];
    }

    /** The timer behind which t belongs, null for the head of the list; k is the place in the list. */
    method FindPlace(t: Timer) returns (current: Timer?, ghost k: nat)
      requires Valid()
      ensures k <= |list| && current == (if k == 0 then null else list[k - 1])
      ensures forall j :: 0 <= j < k ==> list[j].expire <= t.expire
      ensures k < |list| ==> list[k].expire > t.expire
    {
      if head == null || t.expire < head.expire {
        return null, 0;
      }
      current, k := head, 1;
      while current.next != null && current.next.expire <= t.expire
        invariant 1 <= k <= |list| && current == list[k - 1]
        invariant forall j :: 0 <= j < k ==> list[j].expire <= t.expire
        decreases |list| - k
      {
        current, k := current.next, k + 1;
      }
    }

    method SpliceBehind(current: Timer?, t: Timer, ghost k: nat) returns (ghost after: seq<Timer>)
      requires Linked(list, head) && t !in list && k <= |list| && current == (if k == 0 then null else list[k - 1])
      modifies this`head, Nodes(list)`next, t`next
      ensures after == Spliced(list, k, t) && Linked(after, head)
    {
      if current == null {
        t.next := head;
        head := t;
      } else {
        t.next := current.next;
        current.next := t;
      }
      after := Spliced(list, k, t);
      SplicedLinked(list, k, t, head);
    }

    /** The splice itself, without the count; k is the place of the timer in the list. */
    method Splice(t: Timer) returns (ghost k: nat)
      requires Valid() && t !in list
      modifies this`head, this`list, Nodes(list)`next, t`next
      ensures InPlace(old(Entries(list)), t.expire, k) && list == Spliced(old(list), k, t) && Linked(list, head)
      ensures Entries(old(list)) == old(Entries(list))
    {
      var current;
      current, k := FindPlace(t);
      assert InPlace(Entries(list), t.expire, k);
      list := SpliceBehind(current, t, k);
    }

    /** Splices a timer in behind all timers that expire no later. */
    method InsertSorted(t: Timer)
      requires Valid() && t !in list && t.active
      modifies this, Nodes(list)`next, t`next
      ensures Valid() && Nodes(list) == Nodes(old(list)) + {t}
      ensures Entries(list) == Insert(old(Entries(list)), t.Entry())
    {
      ghost var before, es := list, Entries(list);
      ghost var k := Splice(t);
      SplicedMembers(before, k, t);
      count := count + 1;
      assert Entries(list) == Insert(es, t.Entry()) by {
        SplicedEntries(before, k, t);
        InsertInPlace(es, t.Entry(), k, Entries(list));
      }
    }

    /** Unlinks a timer that is in the list, at the position returned. */
    method Unlink(t: Timer) returns (ghost k: nat)
      requires Valid() && t in list
      modifies this`head, Nodes(list)`next
      ensures k < |list| && list[k] == t && Linked(Cut(list, k), head)
    {
      k := 0;
      if head == t {
        head := t.next;
      } else {
        var current := head;
        while current != null && current.next != t
          invariant 0 <= k < |list| && current == list[k] && t !in list[..k + 1]
          decreases |list| - k
        {
          current := current.next;
          k := k + 1;
        }
        k := k + 1;
        if current != null { current.next := t.next; }
      }
      CutLinked(list, k, head);
    }

    method Stop(t: Timer)
      requires Valid() && (t.active ==> t in list)
      modifies this, Nodes(list)`next, t`next, t`active
      ensures Valid() && !t.active && t !in list && Nodes(list) == Nodes(old(list)) - {t}
      ensures Entries(list) == Remove(old(Entries(list)), t)
    {
      ghost var before, es := list, Entries(list);
      if !t.active {
        RemoveAbsent(es, t);
        return;
      }
      ghost var k := Unlink(t);
      CutNodes(before, k);
      t.active := false;
      t.next := null;
      count := count - 1;
      list := Cut(before, k);
      assert Entries(list) == Remove(es, t) by {
        CutEntries(before, k);
        assert Entries(before) == es;
        RemoveAt(es, t, k);
      }
    }
  
    /** Starts or restarts a timer: it leaves the list if it was active and expires one period from now. */
    method Start(t: Timer, now: Tick)
      requires Valid() && (t.active ==> t in list)
      modifies this, Nodes(list)`next, t`next, t`active, t`expire
      ensures Valid() && t.active && t.expire == After(now, t.period) && Nodes(list) == Nodes(old(list)) + {t}
      ensures Entries(list) == Insert(Remove(old(Entries(list)), t), t.Entry())
    {
      ghost var es := Entries(list);
      if t.active {
        Stop(t);
      } else {
        RemoveAbsent(es, t);
      }
      ghost var kept := list;
      assert Entries(list) == Remove(es, t);
      t.expire := After(now, t.period);
      t.active := true;
      assert Entries(kept) == Remove(es, t);
      InsertSorted(t);
    }

    method ChangePeriod(t: Timer, period: Tick, now: Tick) returns (ok: bool)
      requires Valid() && (t.active ==> t in list)
      modifies this, Nodes(list)`next, t
      ensures Valid() && ok == (period != 0) && t.active == old(t.active)
      ensures !ok ==> Entries(list) == old(Entries(list)) && t.period == old(t.period)
      ensures ok ==> t.period == period
      ensures ok && t.active ==>
        t.expire == After(now, period) && Entries(list) == Insert(Remove(old(Entries(list)), t), t.Entry())
      ensures ok && !t.active ==> Entries(list) == old(Entries(list))
    {
      if period == 0 { return false; }
      ghost var es := Entries(list);
      var wasActive := t.active;
      if wasActive { Stop(t); }
      ghost var kept := list;
      assert Entries(kept) == if wasActive then Remove(es, t) else es;
      t.period := period;
      assert Entries(kept) == if wasActive then Remove(es, t) else es;
      if wasActive {
        assert forall i :: 0 <= i < |Entries(kept)| ==> Entries(kept)[i].timer != t;
        RemoveAbsent(Entries(kept), t);
        Start(t, now);
      }
      ok := true;
    }

    /** Takes the due head off the list and, if it reloads, puts it back. */
    method PopHead() returns (t: Timer)
      requires Valid() && list != []
      modifies this, Nodes(list)`active
      ensures Valid() && t == old(list[0]) && !t.active && list == old(list)[1..]
      ensures Nodes(list) == Nodes(old(list)) - {t}
      ensures Entries(list) == old(Entries(list))[1..]
    {
      ghost var before := list;
      t := head;
      head := t.next;
      ghost var tail := TailOf(before, head);
      t.active := false;
      count := count - 1;
      list := tail;
    }

    method FireHead(now: Tick) returns (t: Timer)
      requires Valid() && list != [] && AllRunning(Entries(list)) && Due(now, list[0].expire)
      modifies this, Nodes(list)
      ensures Valid() && t == old(list[0]) && t.active == t.reload
      ensures Nodes(list) == if t.reload then Nodes(old(list)) else Nodes(old(list)) - {t}
      ensures Entries(list) == Popped(old(Entries(list)), now)
      ensures forall x :: x in old(list) && x != t ==> x.active
    {
      ghost var es := Entries(list);
      t := PopHead();
      if t.reload {
        t.expire := After(now, t.period);
        t.active := true;
        assert Entries(list) == es[1..] && t.Entry() == Rearmed(es[0], now);
        InsertSorted(t);
      }
    }

    /**
     * The tick handler: scans from the head, firing due timers, until the first that is not due.
     * Firing a timer stands for its callback, which does not call the timer interface.
     */
    method ProcessTimers(now: Tick) returns (fired: seq<Timer>)
      requires Valid() && AllRunning(Entries(list))
      modifies this, Nodes(list)
      ensures Valid() && Nodes(list) <= Nodes(old(list))
      ensures Entries(list) == Process(old(Entries(list)), now).0
      ensures var f := Process(old(Entries(list)), now).1;
              |fired| == |f| && forall i :: 0 <= i < |f| ==> fired[i] == f[i].timer
    {
      ghost var all, done: seq<Entry<Timer>> := Entries(list), [];
      ghost var atEntry := list;
      fired := [];
      assert [] + Process(all, now).1 == Process(all, now).1;
      while head != null
        invariant Valid() && Nodes(list) <= Nodes(atEntry)
        invariant AllRunning(Entries(list)) && Scanning(all, Entries(list), done, now)
        invariant |fired| == |done| && forall i :: 0 <= i < |done| ==> fired[i] == done[i].timer
        decreases DueCount(Entries(list), now)
      {
        if !Due(now, head.expire) { break; }
        ghost var es := Entries(list);
        ScanningStep(all, es, done, now);
        var t := FireHead(now);
        fired, done := fired + [t], done + [es[0]];
      }
      ScanningEnds(all, Entries(list), done, now);
    }
  }
}
