/**
 * A message queue shared by any number of senders, receivers and peekers. Every byte copied is a step of its own,
 * and tasks may be switched between any two steps; only the queue's mutex keeps them apart.
 */
module QueueRuns {
  import opened Bytes
  import opened MsgQueue
  import opened Wrappers

  /** What a task inside the locked section is doing, and how far its copy has come. */
  datatype Activity =
    | Sending(item: seq<Byte>, done: nat)
    | Receiving(got: seq<Byte>)
    | Peeking(got: seq<Byte>)

  /** `sent` and `received` are the items of completed calls, in the order in which they left the lock. */
  datatype System<T> = System(
    ring: Ring, lock: Option<T>, inside: map<T, Activity>, sent: seq<seq<Byte>>, received: seq<seq<Byte>>)

  datatype Event<T> =
    | EnterSend(task: T, item: seq<Byte>)
    | EnterReceive(task: T)
    | EnterPeek(task: T)
    | CopyByte(task: T)
    | Leave(task: T)

  function Copied(a: Activity): nat {
    match a
    case Sending(_, done) => done
    case Receiving(got) => |got|
    case Peeking(got) => |got|
  }

  /** Entering takes the lock; a task inside may always go on, whether or not it still has the lock. */
  predicate Enabled<T(==)>(s: System<T>, e: Event<T>) {
    match e
    case EnterSend(_, item) => s.lock == None && |item| == s.ring.size
    case EnterReceive(_) => s.lock == None
    case EnterPeek(_) => s.lock == None
    case CopyByte(t) => t in s.inside && Copied(s.inside[t]) < s.ring.size
    case Leave(t) => t in s.inside && Copied(s.inside[t]) == s.ring.size
  }

  /** What the bytes copied so far are worth. */
  ghost predicate Underway(r: Ring, a: Activity)
    requires Valid(r)
  {
    match a
    case Sending(item, done) =>
      && r.count < r.max && |item| == r.size && done <= r.size
      && Slot(r, r.tail)[..done] == item[..done]
    case Receiving(got) => r.count > 0 && |got| <= r.size && got == Slot(r, r.head)[..|got|]
    case Peeking(got) => r.count > 0 && |got| <= r.size && got == Slot(r, r.head)[..|got|]
  }

  /** The conservation law of a FIFO, and one task at most inside the locked section. */
  ghost predicate Inv<T>(s: System<T>) {
    && Valid(s.ring)
    && (forall t :: t in s.inside ==> s.lock == Some(t) && Underway(s.ring, s.inside[t]))
    && s.received + Items(s.ring) == s.sent
  }

  function Enter<T>(s: System<T>, t: T, a: Activity): System<T> {
    s.(lock := Some(t), inside := s.inside[t := a])
  }

  function CopyNext(r: Ring, a: Activity): (Ring, Activity)
    requires Valid(r) && Copied(a) < r.size && (a.Sending? ==> |a.item| == r.size)
  {
    match a
    case Sending(item, done) => (Put(r, r.tail, done, item[done]), Sending(item, done + 1))
    case Receiving(got) => (r, Receiving(got + [Slot(r, r.head)[|got|]]))
    case Peeking(got) => (r, Peeking(got + [Slot(r, r.head)[|got|]]))
  }

  /** A call that finds the queue full, or empty, gives the lock back and has no effect. */
  function Next<T(==)>(s: System<T>, e: Event<T>): System<T>
    requires Inv(s) && Enabled(s, e)
  {
    match e
    case EnterSend(t, item) => if s.ring.count < s.ring.max then Enter(s, t, Sending(item, 0)) else s
    case EnterReceive(t) => if s.ring.count > 0 then Enter(s, t, Receiving([])) else s
    case EnterPeek(t) => if s.ring.count > 0 then Enter(s, t, Peeking([])) else s
    case CopyByte(t) =>
      var (r, a) := CopyNext(s.ring, s.inside[t]);
      s.(ring := r, inside := s.inside[t := a])
    case Leave(t) =>
      var out := s.(lock := None, inside := s.inside - {t});
      match s.inside[t]
      case Sending(item, _) => out.(ring := Sent(s.ring), sent := s.sent + [item])
      case Receiving(got) => out.(ring := Received(s.ring), received := s.received + [got])
      case Peeking(_) => out
  }

  /** Copying a byte leaves the items alone and brings the copy one byte further. */
  lemma CopyKeeps(r: Ring, a: Activity)
    requires Valid(r) && Underway(r, a) && Copied(a) < r.size
    ensures var (r', a') := CopyNext(r, a); Valid(r') && Items(r') == Items(r) && Underway(r', a')
  {
    match a
    case Sending(item, done) =>
      PutItems(r, done, item[done]);
      PutSlot(r, r.tail, done, item[done], r.tail);
      var slot := Slot(r, r.tail);
      assert slot[done := item[done]][..done + 1] == slot[..done] + [item[done]] == item[..done + 1];
    case Receiving(got) =>
    case Peeking(got) =>
  }

  lemma LeaveKeeps<T>(s: System<T>, t: T)
    requires Inv(s) && Enabled(s, Leave(t))
    ensures Inv(Next(s, Leave(t)))
    ensures s.inside[t].Receiving? || s.inside[t].Peeking? ==>
      |s.received| < |s.sent| && s.inside[t].got == s.sent[|s.received|]
  {
    var r := s.ring;
    match s.inside[t]
    case Sending(item, done) =>
      SentItems(r);
      assert Slot(r, r.tail)[..done] == Slot(r, r.tail) && item[..done] == item;
      assert s.received + (Items(r) + [item]) == s.received + Items(r) + [item];
    case Receiving(got) =>
      ReceivedItems(r);
      assert Slot(r, r.head)[..|got|] == Slot(r, r.head);
      assert s.received + ([got] + Items(Received(r))) == s.received + [got] + Items(Received(r));
    case Peeking(got) =>
      ReceivedItems(r);
      assert Slot(r, r.head)[..|got|] == Slot(r, r.head);
  }

  lemma NextInv<T>(s: System<T>, e: Event<T>)
    requires Inv(s) && Enabled(s, e)
    ensures Inv(Next(s, e))
  {
    match e
    case CopyByte(t) =>
      CopyKeeps(s.ring, s.inside[t]);
      assert forall u :: u in s.inside ==> u == t;
    case Leave(t) => LeaveKeeps(s, t);
    case _ =>
  }

  // ---- Whole runs ----

  ghost predicate Legal<T>(s: System<T>, es: seq<Event<T>>)
    requires Inv(s)
    decreases |es|
  {
    es == [] || (Enabled(s, es[0]) && (NextInv(s, es[0]); Legal(Next(s, es[0]), es[1..])))
  }

  ghost function Run<T>(s: System<T>, es: seq<Event<T>>): System<T>
    requires Inv(s) && Legal(s, es)
    decreases |es|
  {
    if es == [] then s else NextInv(s, es[0]); Run(Next(s, es[0]), es[1..])
  }

  /**
   * Whatever the interleaving: the items received, followed by those in the ring, are the items sent, in order;
   * the indices agree; and no two tasks are in the locked section.
   */
  lemma {:induction false} BoundedFifo<T>(s: System<T>, es: seq<Event<T>>)
    requires Inv(s) && Legal(s, es)
    ensures var s' := Run(s, es);
            && Inv(s') && s'.received + Items(s'.ring) == s'.sent && |Items(s'.ring)| == s'.ring.count <= s'.ring.max
            && s'.ring.max == s.ring.max && s'.ring.tail == (s'.ring.head + s'.ring.count) % s'.ring.max
            && forall t, u :: t in s'.inside && u in s'.inside ==> t == u
    decreases |es|
  {
    if es != [] {
      NextInv(s, es[0]);
      BoundedFifo(Next(s, es[0]), es[1..]);
    } else {
      AtIsMod(s.ring.head, s.ring.count, s.ring.max);
    }
  }

  /** A receive or peek that completes, in any reachable state, returns the oldest item not yet received. */
  lemma DeliversOldest<T>(s: System<T>, es: seq<Event<T>>, t: T)
    requires Inv(s) && Legal(s, es) && Enabled(Run(s, es), Leave(t)) && !Run(s, es).inside[t].Sending?
    ensures var s' := Run(s, es); |s'.received| < |s'.sent| && s'.inside[t].got == s'.sent[|s'.received|]
  {
    BoundedFifo(s, es);
    LeaveKeeps(Run(s, es), t);
  }
}
