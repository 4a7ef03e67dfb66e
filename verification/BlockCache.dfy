/** The one-block write-back cache between the file system and its block device. */
module BlockCache {
  import opened Bytes
  import opened Wrappers

  const BLOCK_SIZE := 512
  const NO_BLOCK := 0xFFFF_FFFF

  type Block = b: seq<Byte> | |b| == BLOCK_SIZE witness seq(BLOCK_SIZE, _ => 0)

  // ---- An uncached store ----

  function StoreRead(disk: seq<Block>, b: nat): Option<Block> {
    if b < |disk| then Some(disk[b]) else None
  }

  function StoreWrite(disk: seq<Block>, b: nat, data: Block): seq<Block> {
    if b < |disk| then disk[b := data] else disk
  }

  // ---- The cache ----

  datatype Cache = Cache(disk: seq<Block>, data: Block, cached: Word, dirty: bool)

  /** The device is smaller than the address that stands for nothing, and a clean cached block equals its original. */
  ghost predicate Valid(c: Cache) {
    && |c.disk| < NO_BLOCK
    && (c.cached != NO_BLOCK ==> c.cached < |c.disk| && (!c.dirty ==> c.disk[c.cached] == c.data))
  }

  /** The store that the cache stands for. */
  function View(c: Cache): (v: seq<Block>)
    ensures |v| == |c.disk|
  {
    if c.cached < |c.disk| then c.disk[c.cached := c.data] else c.disk
  }

  /** fs_sync_cache */
  function Synced(c: Cache): Cache {
    if c.dirty && c.cached != NO_BLOCK then c.(disk := StoreWrite(c.disk, c.cached, c.data), dirty := false) else c
  }

  /** fs_read_block */
  function Read(c: Cache, b: Word): (Cache, Option<Block>) {
    if b == c.cached then (c, Some(c.data))
    else
      match StoreRead(c.disk, b)
      case None => (c, None)
      case Some(data) => (Synced(c).(data := data, cached := b, dirty := false), Some(data))
  }

  /** fs_write_block */
  function Write(c: Cache, b: Word, data: Block): (Cache, bool) {
    if b == c.cached then (c.(data := data, dirty := true), true)
    else (c.(disk := StoreWrite(c.disk, b, data)), b < |c.disk|)
  }

  /** The address is not the one an empty cache answers to. */
  predicate Answered(c: Cache, b: Word) { b != NO_BLOCK || c.cached != NO_BLOCK }

  /** A read returns what the store holds if and only if the cache does not take the address for its empty mark. */
  lemma ReadTransparent(c: Cache, b: Word)
    requires Valid(c)
    ensures Valid(Read(c, b).0) && View(Read(c, b).0) == View(c)
    ensures Read(c, b).1 == StoreRead(View(c), b) <==> Answered(c, b)
  {
  }

  lemma WriteTransparent(c: Cache, b: Word, data: Block)
    requires Valid(c)
    ensures Valid(Write(c, b, data).0) && View(Write(c, b, data).0) == StoreWrite(View(c), b, data)
    ensures Write(c, b, data).1 == (b < |View(c)|) <==> Answered(c, b)
  {
    if b < |c.disk| && b != c.cached && c.cached < |c.disk| {
      assert c.disk[b := data][c.cached := c.data] == c.disk[c.cached := c.data][b := data];
    }
  }

  lemma SyncTransparent(c: Cache)
    requires Valid(c)
    ensures Valid(Synced(c)) && View(Synced(c)) == View(c)
    ensures Synced(c).disk == View(c)
  {
  }

  // ---- Any sequence of operations ----

  datatype Op = ReadOp(b: Word) | WriteOp(b: Word, data: Block) | SyncOp

  /** What a caller sees of an operation. */
  datatype Answer = Got(data: Option<Block>) | Wrote(ok: bool) | Done

  function Step(c: Cache, op: Op): (Cache, Answer) {
    match op
    case ReadOp(b) => var (c', data) := Read(c, b); (c', Got(data))
    case WriteOp(b, data) => var (c', ok) := Write(c, b, data); (c', Wrote(ok))
    case SyncOp => (Synced(c), Done)
  }

  function StoreStep(disk: seq<Block>, op: Op): (seq<Block>, Answer) {
    match op
    case ReadOp(b) => (disk, Got(StoreRead(disk, b)))
    case WriteOp(b, data) => (StoreWrite(disk, b, data), Wrote(b < |disk|))
    case SyncOp => (disk, Done)
  }

  function Run(c: Cache, ops: seq<Op>): (Cache, seq<Answer>)
    decreases |ops|
  {
    if ops == [] then (c, [])
    else var (c1, a) := Step(c, ops[0]); var (c', rest) := Run(c1, ops[1..]); (c', [a] + rest)
  }

  function StoreRun(disk: seq<Block>, ops: seq<Op>): (seq<Block>, seq<Answer>)
    decreases |ops|
  {
    if ops == [] then (disk, [])
    else var (d1, a) := StoreStep(disk, ops[0]); var (d', rest) := StoreRun(d1, ops[1..]); (d', [a] + rest)
  }

  /** The caller does not use the mark of an empty cache as an address. */
  predicate Addressed(op: Op) { op.SyncOp? || op.b != NO_BLOCK }

  lemma StepTransparent(c: Cache, op: Op)
    requires Valid(c) && Addressed(op)
    ensures Valid(Step(c, op).0) && (View(Step(c, op).0), Step(c, op).1) == StoreStep(View(c), op)
  {
    match op
    case ReadOp(b) => ReadTransparent(c, b);
    case WriteOp(b, data) => WriteTransparent(c, b, data);
    case SyncOp => SyncTransparent(c);
  }

  /** Any sequence of reads, writes and syncs answers as the uncached store; a final sync makes the device equal it. */
  lemma {:induction false} CacheTransparent(c: Cache, ops: seq<Op>)
    requires Valid(c) && forall op :: op in ops ==> Addressed(op)
    ensures Run(c, ops).1 == StoreRun(View(c), ops).1
    ensures Valid(Run(c, ops).0) && View(Run(c, ops).0) == StoreRun(View(c), ops).0
    ensures Synced(Run(c, ops).0).disk == StoreRun(View(c), ops).0
    decreases |ops|
  {
    if ops == [] {
      SyncTransparent(c);
    } else {
      assert Addressed(ops[0]);
      StepTransparent(c, ops[0]);
      CacheTransparent(Step(c, ops[0]).0, ops[1..]);
    }
  }

  // ---- In place ----

  class Store {
    var disk: seq<Block>
    const data: array<Byte>
    var cached: Word
    var dirty: bool

    constructor (disk: seq<Block>)
      requires |disk| < NO_BLOCK
      ensures this.disk == disk && fresh(data) && data.Length == BLOCK_SIZE && cached == NO_BLOCK && !dirty
      ensures data[..] == seq(BLOCK_SIZE, _ => 0)
    {
      this.disk, cached, dirty := disk, NO_BLOCK, false;
      data := new Byte[BLOCK_SIZE](_ => 0);
    }

    ghost function Value(): Cache
      requires data.Length == BLOCK_SIZE
      reads this, data
    {
      Cache(disk, data[..], cached, dirty)
    }

    /** memcpy of a whole block into the cache */
    method Fill(block: Block)
      requires data.Length == BLOCK_SIZE
      modifies data
      ensures data[..] == block
    {
      for i := 0 to BLOCK_SIZE
        invariant data[..i] == block[..i]
      {
        data[i] := block[i];
      }
    }

    method SyncCache()
      requires data.Length == BLOCK_SIZE && Valid(Value())
      modifies this
      ensures Value() == Synced(old(Value()))
    {
      if dirty && cached != NO_BLOCK {
        disk := disk[cached := data[..]];
        dirty := false;
      }
    }

    method ReadBlock(b: Word) returns (block: Option<Block>)
      requires data.Length == BLOCK_SIZE && Valid(Value())
      modifies this, data
      ensures (Value(), block) == Read(old(Value()), b)
    {
      if b == cached {
        return Some(data[..]);
      }
      if b >= |disk| {
        return None;
      }
      var buffer := disk[b];
      if dirty {
        SyncCache();
      }
      Fill(buffer);
      cached, dirty := b, false;
      return Some(buffer);
    }

    method WriteBlock(b: Word, block: Block) returns (ok: bool)
      requires data.Length == BLOCK_SIZE && Valid(Value())
      modifies this, data
      ensures (Value(), ok) == Write(old(Value()), b, block)
    {
      if b == cached {
        Fill(block);
        dirty := true;
        return true;
      }
      if b >= |disk| {
        return false;
      }
      disk := disk[b := block];
      return true;
    }
  }
}
