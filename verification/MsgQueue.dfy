/** Message queues: a ring of fixed-size items in a byte buffer, as a value and as an object updated in place. */
module MsgQueue {
  import opened Bytes

  datatype Ring = Ring(buffer: seq<Byte>, size: nat, max: nat, head: nat, tail: nat, count: nat)

  /** (head + i) mod max */
  function At(head: nat, i: nat, max: nat): (j: nat)
    requires head < max && i <= max
    ensures j < max
  {
    if head + i < max then head + i else head + i - max
  }

  lemma AtIsMod(head: nat, i: nat, max: nat)
    requires head < max && i <= max
    ensures At(head, i, max) == (head + i) % max
  {
    if head + i >= max { WrapsOnce(head + i - max, max); }
  }

  lemma WrapsOnce(r: nat, m: nat)
    requires r < m
    ensures (m + r) % m == r
  {
    var q := (m + r) / m;
    assert m + r == q * m + (m + r) % m;
    assert q == 1;
  }

  predicate Valid(r: Ring) {
    && 0 < r.size && 0 < r.max && |r.buffer| == r.max * r.size
    && r.head < r.max && r.count <= r.max && r.tail == At(r.head, r.count, r.max)
  }

  /** Slot j ends inside the buffer, before the next slot begins. */
  lemma SlotBounds(r: Ring, j: nat)
    requires Valid(r) && j < r.max
    ensures 0 <= j * r.size && j * r.size + r.size <= |r.buffer|
  {
    assert (j + 1) * r.size <= r.max * r.size;
  }

  function Slot(r: Ring, j: nat): (s: seq<Byte>)
    requires Valid(r) && j < r.max
    ensures |s| == r.size
  {
    SlotBounds(r, j);
    r.buffer[j * r.size..j * r.size + r.size]
  }

  /** The items in the ring, oldest first. */
  function Items(r: Ring): (s: seq<seq<Byte>>)
    requires Valid(r)
    ensures |s| == r.count
  {
    seq(r.count, i requires 0 <= i < r.count => Slot(r, At(r.head, i, r.max)))
  }

  function Sent(r: Ring): Ring
    requires Valid(r) && r.count < r.max
  {
    r.(tail := (r.tail + 1) % r.max, count := r.count + 1)
  }

  function Received(r: Ring): Ring
    requires Valid(r) && r.count > 0
  {
    r.(head := (r.head + 1) % r.max, count := r.count - 1)
  }

  lemma SentItems(r: Ring)
    requires Valid(r) && r.count < r.max
    ensures Valid(Sent(r)) && Items(Sent(r)) == Items(r) + [Slot(r, r.tail)]
  {
    AtIsMod(r.tail, 1, r.max);
    var r' := Sent(r);
    forall j | 0 <= j < r.max ensures Slot(r', j) == Slot(r, j) {}
  }

  lemma ReceivedItems(r: Ring)
    requires Valid(r) && r.count > 0
    ensures Valid(Received(r)) && Items(r) == [Slot(r, r.head)] + Items(Received(r))
  {
    AtIsMod(r.head, 1, r.max);
    var r' := Received(r);
    forall j | 0 <= j < r.max ensures Slot(r', j) == Slot(r, j) {}
    forall i | 0 <= i < r'.count ensures At(r'.head, i, r.max) == At(r.head, i + 1, r.max) {}
  }

  /** One byte of slot j. */
  function Put(r: Ring, j: nat, i: nat, b: Byte): Ring
    requires Valid(r) && j < r.max && i < r.size
  {
    SlotBounds(r, j);
    r.(buffer := r.buffer[j * r.size + i := b])
  }

  lemma SlotsApart(size: nat, j: nat, k: nat)
    requires j < k
    ensures j * size + size <= k * size
  {
    assert (j + 1) * size <= k * size;
  }

  /** Writing into one slot changes that byte of that slot only. */
  lemma PutSlot(r: Ring, j: nat, i: nat, b: Byte, k: nat)
    requires Valid(r) && j < r.max && i < r.size && k < r.max
    ensures Valid(Put(r, j, i, b))
    ensures Slot(Put(r, j, i, b), k) == if k == j then Slot(r, j)[i := b] else Slot(r, k)
  {
    SlotBounds(r, j);
    SlotBounds(r, k);
    if k < j { SlotsApart(r.size, k, j); } else if j < k { SlotsApart(r.size, j, k); }
  }

  /** While the ring is not full, its items do not notice a write into the slot at the tail. */
  lemma PutItems(r: Ring, i: nat, b: Byte)
    requires Valid(r) && r.count < r.max && i < r.size
    ensures Valid(Put(r, r.tail, i, b)) && Items(Put(r, r.tail, i, b)) == Items(r)
  {
    var r' := Put(r, r.tail, i, b);
    PutSlot(r, r.tail, i, b, r.tail);
    forall k | 0 <= k < r.count ensures Items(r')[k] == Items(r)[k] {
      PutSlot(r, r.tail, i, b, At(r.head, k, r.max));
    }
  }

  // ---- The object ----

  class Queue {
    const buffer: array<Byte>
    const itemSize: nat
    const maxItems: nat
    var head: nat
    var tail: nat
    var count: nat

    /** os_queue_init, for a buffer of the right size */
    constructor (buffer: array<Byte>, itemSize: nat, maxItems: nat)
      requires itemSize > 0 && maxItems > 0 && buffer.Length == maxItems * itemSize
      ensures this.buffer == buffer && this.itemSize == itemSize && this.maxItems == maxItems
      ensures Valid(Value()) && Items(Value()) == []
    {
      this.buffer, this.itemSize, this.maxItems := buffer, itemSize, maxItems;
      head, tail, count := 0, 0, 0;
    }

    ghost function Value(): Ring
      reads this, buffer
    {
      Ring(buffer[..], itemSize, maxItems, head, tail, count)
    }

    /** The locked section of os_queue_send. */
    method Send(item: array<Byte>) returns (ok: bool)
      requires Valid(Value()) && item.Length == itemSize && item != buffer
      modifies this, buffer
      ensures Valid(Value()) && ok == (old(count) < maxItems)
      ensures Items(Value()) == if ok then old(Items(Value())) + [item[..]] else old(Items(Value()))
    {
      ok := count < maxItems;
      if ok {
        CopyIn(item);
        SentItems(Value());
        tail := (tail + 1) % maxItems;
        count := count + 1;
      }
    }

    /** memcpy into the slot at the tail */
    method CopyIn(item: array<Byte>)
      requires Valid(Value()) && item.Length == itemSize && item != buffer && count < maxItems
      modifies buffer
      ensures Valid(Value()) && Items(Value()) == old(Items(Value())) && Slot(Value(), tail) == item[..]
    {
      SlotBounds(Value(), tail);
      ghost var items := Items(Value());
      var dest := tail * itemSize;
      for i := 0 to itemSize
        invariant Valid(Value()) && Items(Value()) == items && Slot(Value(), tail)[..i] == item[..i]
      {
        ghost var r := Value();
        PutItems(r, i, item[i]);
        PutSlot(r, tail, i, item[i], tail);
        buffer[dest + i] := item[i];
        assert Value() == Put(r, tail, i, item[i]);
      }
    }

    /** memcpy out of the slot at the head */
    method CopyOut(item: array<Byte>)
      requires Valid(Value()) && item.Length == itemSize && item != buffer && count > 0
      modifies item
      ensures item[..] == Slot(Value(), head) == Items(Value())[0]
    {
      SlotBounds(Value(), head);
      var src := head * itemSize;
      for i := 0 to itemSize
        invariant item[..i] == buffer[src..src + i]
      {
        item[i] := buffer[src + i];
      }
    }

    /** The locked section of os_queue_receive. */
    method Receive(item: array<Byte>) returns (ok: bool)
      requires Valid(Value()) && item.Length == itemSize && item != buffer
      modifies this, item
      ensures Valid(Value()) && ok == (old(count) > 0)
      ensures if ok then old(Items(Value())) == [item[..]] + Items(Value())
              else Items(Value()) == old(Items(Value())) && item[..] == old(item[..])
    {
      ok := count > 0;
      if ok {
        CopyOut(item);
        ReceivedItems(Value());
        head := (head + 1) % maxItems;
        count := count - 1;
      }
    }

    /** The locked section of os_queue_peek. */
    method Peek(item: array<Byte>) returns (ok: bool)
      requires Valid(Value()) && item.Length == itemSize && item != buffer
      modifies item
      ensures ok == (count > 0)
      ensures if ok then item[..] == Items(Value())[0] else item[..] == old(item[..])
    {
      ok := count > 0;
      if ok {
        CopyOut(item);
      }
    }
  }
}
