/** File contents: what fs_read, fs_write and fs_truncate mean for the bytes of every file. */
module FileData {
  import opened Bytes
  import opened BlockCache
  import opened Bitmap
  import opened Inodes
  import opened FsModel
  import opened Wrappers

  // ---- No operation on one file touches another ----

  /** Every other inode is as before, and so is every block it points to. */
  ghost predicate Untouched(g: Geometry, s: Fs, s': Fs, n: nat)
    requires Shaped(g, s) && Shaped(g, s')
  {
    forall m :: 0 <= m < g.inodes && m != n ==>
      && s'.inodes[m] == s.inodes[m]
      && forall k :: 0 <= k < POINTERS && Real(g, s.inodes[m].blocks[k]) ==>
           s'.blocks[s.inodes[m].blocks[k]] == s.blocks[s.inodes[m].blocks[k]]
  }

  /** The inode differs only in pointers that were empty. */
  ghost predicate Extended(x: Inode, x': Inode) {
    x' == x.(blocks := x'.blocks) && forall k :: 0 <= k < POINTERS && x.blocks[k] != 0 ==> x'.blocks[k] == x.blocks[k]
  }

  lemma GrownKeeps(g: Geometry, s: Fs, n: nat, k: nat)
    requires Inv(g, s) && n < g.inodes && k < POINTERS && s.inodes[n].blocks[k] == 0
    ensures var s' := Grown(g, s, n, k); Inv(g, s') && Untouched(g, s, s', n) && Extended(s.inodes[n], s'.inodes[n])
  {
    AllocKeeps(g, s, n, k);
    var (s1, b) := Alloc(g, s);
    var s2, s' := WithNode(s1, n, SetPointer(s.inodes[n], k, b)), Grown(g, s, n, k);
    assert s' == s2.(blocks := s'.blocks);
    BlocksKeepInv(g, s2, s'.blocks);
  }

  /** The invariant does not depend on what is in the blocks. */
  lemma BlocksKeepInv(g: Geometry, s: Fs, blocks: seq<Block>)
    requires Inv(g, s) && |blocks| == g.total
    ensures Inv(g, s.(blocks := blocks))
  {
  }

  lemma PatchedKeeps(g: Geometry, s: Fs, n: nat, k: nat, at: nat, data: seq<Byte>)
    requires Inv(g, s) && n < g.inodes && k < POINTERS && s.inodes[n].blocks[k] != 0 && at + |data| <= BLOCK_SIZE
    ensures var s' := Patched(s, s.inodes[n].blocks[k], at, data);
            Inv(g, s') && Untouched(g, s, s', n) && s'.inodes == s.inodes && s'.used == s.used && s'.free == s.free
  {
    BlocksKeepInv(g, s, Patched(s, s.inodes[n].blocks[k], at, data).blocks);
  }

  lemma UntouchedThen(g: Geometry, s: Fs, s1: Fs, s2: Fs, n: nat)
    requires Shaped(g, s) && Shaped(g, s1) && Shaped(g, s2) && Untouched(g, s, s1, n) && Untouched(g, s1, s2, n)
    ensures Untouched(g, s, s2, n)
  {
  }

  /** The invariant holds, other files are as before, and this one only gained pointers. */
  ghost predicate Kept(g: Geometry, s: Fs, n: nat, s': Fs)
    requires Shaped(g, s) && n < g.inodes
  {
    Inv(g, s') && Untouched(g, s, s', n) && Extended(s.inodes[n], s'.inodes[n])
  }

  lemma KeptThen(g: Geometry, s: Fs, s1: Fs, s2: Fs, n: nat)
    requires Shaped(g, s) && n < g.inodes && Kept(g, s, n, s1) && Kept(g, s1, n, s2)
    ensures Kept(g, s, n, s2)
  {
    UntouchedThen(g, s, s1, s2, n);
  }

  /** One round of the loop, whatever becomes of it. */
  lemma AnyRoundKeeps(g: Geometry, s: Fs, n: nat, pos: nat, chunk: seq<Byte>)
    requires Inv(g, s) && n < g.inodes && pos / BLOCK_SIZE < POINTERS && pos % BLOCK_SIZE + |chunk| <= BLOCK_SIZE
    ensures Kept(g, s, n, Round(g, s, n, pos, chunk))
  {
    var k := pos / BLOCK_SIZE;
    if s.inodes[n].blocks[k] == 0 {
      GrownKeeps(g, s, n, k);
      var grown := Grown(g, s, n, k);
      if grown.inodes[n].blocks[k] != 0 {
        PatchedKeeps(g, grown, n, k, pos % BLOCK_SIZE, chunk);
        UntouchedThen(g, s, grown, Round(g, s, n, pos, chunk), n);
      }
    } else {
      PatchedKeeps(g, s, n, k, pos % BLOCK_SIZE, chunk);
    }
  }

  lemma {:induction false} WriteFromKeeps(g: Geometry, s: Fs, n: nat, pos: nat, data: seq<Byte>)
    requires Inv(g, s) && n < g.inodes
    ensures Kept(g, s, n, WriteFrom(g, s, n, pos, data).0)
    decreases |data|, 0
  {
    if data != [] && pos / BLOCK_SIZE < POINTERS {
      var c := Chunk(pos, |data|);
      AnyRoundKeeps(g, s, n, pos, data[..c]);
      KeptRest(g, s, Round(g, s, n, pos, data[..c]), n, pos + c, data[c..]);
    }
  }

  lemma {:induction false} KeptRest(g: Geometry, s: Fs, s1: Fs, n: nat, pos: nat, rest: seq<Byte>)
    requires Shaped(g, s) && n < g.inodes && Kept(g, s, n, s1)
    ensures Kept(g, s, n, WriteFrom(g, s1, n, pos, rest).0)
    decreases |rest|, 1
  {
    WriteFromKeeps(g, s1, n, pos, rest);
    KeptThen(g, s, s1, WriteFrom(g, s1, n, pos, rest).0, n);
  }

  /** fs_write keeps the invariant and every other file, out of space or not and whatever the position. */
  lemma WrittenKeeps(g: Geometry, s: Fs, n: nat, pos: Word, data: seq<Byte>, now: Word)
    requires Inv(g, s) && n < g.inodes
    ensures Inv(g, Written(g, s, n, pos, data, now).0) && Untouched(g, s, Written(g, s, n, pos, data, now).0, n)
  {
    var (s1, end) := WriteFrom(g, s, n, pos, data);
    WriteFromKeeps(g, s, n, pos, data);
    WriteFromShape(g, s, n, pos, data);
    var x := s1.inodes[n];
    NodeKeeps(g, s1, n, if end > x.size then x.(size := end, mtime := now) else s.inodes[n]);
  }

  // ---- The bytes of a dense file ----

  /** Every block that holds a byte before `size` is there. */
  ghost predicate Solid(g: Geometry, x: Inode, size: nat) {
    size <= MAX_SIZE && forall k :: 0 <= k < POINTERS && k * BLOCK_SIZE < size ==> Real(g, x.blocks[k])
  }

  ghost predicate Dense(g: Geometry, s: Fs, n: nat)
    requires Shaped(g, s) && n < g.inodes
  {
    Solid(g, s.inodes[n], s.inodes[n].size)
  }

  function ByteAt(g: Geometry, s: Fs, x: Inode, q: nat): Byte
    requires Shaped(g, s) && q < MAX_SIZE && Real(g, x.blocks[q / BLOCK_SIZE])
  {
    s.blocks[x.blocks[q / BLOCK_SIZE]][q % BLOCK_SIZE]
  }

  /** The block of a byte is one of those that a solid inode has. */
  lemma SolidAt(g: Geometry, x: Inode, size: nat, q: nat)
    requires Solid(g, x, size) && q < size
    ensures q / BLOCK_SIZE < POINTERS && Real(g, x.blocks[q / BLOCK_SIZE])
  {
    assert q / BLOCK_SIZE * BLOCK_SIZE < size;
  }

  ghost function Contents(g: Geometry, s: Fs, n: nat): (c: seq<Byte>)
    requires Shaped(g, s) && n < g.inodes && Dense(g, s, n)
    ensures |c| == s.inodes[n].size
  {
    var x := s.inodes[n];
    seq(x.size, q requires 0 <= q < x.size => SolidAt(g, x, x.size, q); ByteAt(g, s, x, q))
  }

  // ---- Counting blocks ----

  /** The number of empty pointers from k up to e. */
  function Missing(x: Inode, k: nat, e: nat): nat
    decreases POINTERS - k
  {
    if k >= e || k >= POINTERS then 0 else (if x.blocks[k] == 0 then 1 else 0) + Missing(x, k + 1, e)
  }

  lemma {:induction false} MissingAbove(x: Inode, x': Inode, k: nat, e: nat)
    requires forall j :: k <= j < POINTERS ==> x'.blocks[j] == x.blocks[j]
    ensures Missing(x', k, e) == Missing(x, k, e)
    decreases POINTERS - k
  {
    if k < e && k < POINTERS { MissingAbove(x, x', k + 1, e); }
  }

  lemma {:induction false} MissingSplit(x: Inode, k: nat, b: nat, e: nat)
    requires k <= b <= e
    ensures Missing(x, k, e) == Missing(x, k, b) + Missing(x, b, e)
    decreases POINTERS - k
  {
    if k < b && k < POINTERS { MissingSplit(x, k + 1, b, e); }
  }

  function BlocksFor(size: nat): nat { (size + BLOCK_SIZE - 1) / BLOCK_SIZE }

  function Max(a: nat, b: nat): nat { if a < b then b else a }

  /** Where a write of len bytes at pos ends if nothing is in its way. */
  function Target(pos: nat, len: nat): nat { if pos + len <= MAX_SIZE then pos + len else Max(pos, MAX_SIZE) }

  /** Block k holds some of the bytes from pos up to end. */
  predicate Covers(pos: nat, end: nat, k: nat) { pos < end && pos / BLOCK_SIZE <= k < BlocksFor(end) }

  /** The empty pointers among the blocks that hold bytes from pos up to end. */
  function Holes(x: Inode, pos: nat, end: nat): nat {
    if pos < end then Missing(x, pos / BLOCK_SIZE, BlocksFor(end)) else 0
  }

  /** There is a block to be had exactly when the counter says so. */
  lemma AllocIffFree(g: Geometry, s: Fs)
    requires Inv(g, s)
    ensures Alloc(g, s).1 != NO_BLOCK <==> s.free > 0
  {
    var u := Unused(g, s.used);
    var b := FirstFree(s.used, g.first, g.total);
    if b != NO_BLOCK {
      assert b in u;
    } else {
      assert u == {};
    }
  }

  // ---- The bytes of a file ----

  /** A byte of a file, or zero where there is no block. */
  function Peek(g: Geometry, s: Fs, x: Inode, q: nat): Byte
    requires Shaped(g, s)
  {
    if q < MAX_SIZE && Real(g, x.blocks[q / BLOCK_SIZE]) then ByteAt(g, s, x, q) else 0
  }

  /** The block of byte q carries the out-of-space mark. */
  predicate Marked(x: Inode, q: nat) { q < MAX_SIZE && x.blocks[q / BLOCK_SIZE] == NO_BLOCK }

  ghost predicate StoredAt(g: Geometry, s: Fs, s': Fs, n: nat, pos: nat, data: seq<Byte>, q: nat)
    requires Shaped(g, s) && Shaped(g, s') && n < g.inodes
  {
    Peek(g, s', s'.inodes[n], q) ==
      if pos <= q < pos + |data| && !Marked(s.inodes[n], q) then data[q - pos] else Peek(g, s, s.inodes[n], q)
  }

  /** Bytes pos and up are now those of data, except in marked blocks; all others are as before. */
  ghost predicate Stored(g: Geometry, s: Fs, s': Fs, n: nat, pos: nat, data: seq<Byte>)
    requires Shaped(g, s) && Shaped(g, s') && n < g.inodes
  {
    forall q :: 0 <= q < MAX_SIZE ==> StoredAt(g, s, s', n, pos, data, q)
  }

  ghost predicate FilledAt(g: Geometry, x: Inode, x': Inode, pos: nat, end: nat, k: nat)
    requires k < POINTERS
  {
    if x.blocks[k] == 0 && Covers(pos, end, k) then Real(g, x'.blocks[k]) else x'.blocks[k] == x.blocks[k]
  }

  /** Exactly the empty pointers of the blocks from pos up to end have got a block. */
  ghost predicate Filled(g: Geometry, x: Inode, x': Inode, pos: nat, end: nat) {
    x' == x.(blocks := x'.blocks) && forall k :: 0 <= k < POINTERS ==> FilledAt(g, x, x', pos, end, k)
  }

  // ---- One round of the loop ----

  /** The loop cannot go on: the block it needs is not there and none is free. */
  ghost predicate Stuck(s: Fs, n: nat, pos: nat)
    requires n < |s.inodes|
  {
    pos / BLOCK_SIZE < POINTERS && s.inodes[n].blocks[pos / BLOCK_SIZE] == 0 && s.free == 0
  }

  /** A round that is not stuck, at the level of blocks. */
  lemma RoundKeeps(g: Geometry, s: Fs, n: nat, pos: nat, data: seq<Byte>)
    requires Inv(g, s) && n < g.inodes && pos / BLOCK_SIZE < POINTERS && pos % BLOCK_SIZE + |data| <= BLOCK_SIZE
    requires !Stuck(s, n, pos)
    ensures var s', x, k := Round(g, s, n, pos, data), s.inodes[n], pos / BLOCK_SIZE;
            && Inv(g, s') && s'.inodes[n] == SetPointer(x, k, s'.inodes[n].blocks[k])
            && (if x.blocks[k] == 0 then Real(g, s'.inodes[n].blocks[k]) else s'.inodes[n] == x)
            && s'.free == s.free - (if x.blocks[k] == 0 then 1 else 0)
            && (forall b :: 0 <= b < g.total && b != s'.inodes[n].blocks[k] ==> s'.blocks[b] == s.blocks[b])
  {
    var x, k := s.inodes[n], pos / BLOCK_SIZE;
    if x.blocks[k] == 0 {
      AllocIffFree(g, s);
      GrownKeeps(g, s, n, k);
      PatchedKeeps(g, Grown(g, s, n, k), n, k, pos % BLOCK_SIZE, data);
    } else {
      assert SetPointer(x, k, x.blocks[k]) == x;
      PatchedKeeps(g, s, n, k, pos % BLOCK_SIZE, data);
    }
  }

  /** The block that a round writes: zeroes, or what was there, with the chunk in its place. */
  lemma RoundBlock(g: Geometry, s: Fs, n: nat, pos: nat, data: seq<Byte>) returns (before: Block)
    requires Inv(g, s) && n < g.inodes && pos / BLOCK_SIZE < POINTERS && pos % BLOCK_SIZE + |data| <= BLOCK_SIZE
    requires !Stuck(s, n, pos) && s.inodes[n].blocks[pos / BLOCK_SIZE] != NO_BLOCK
    ensures var s', x, k := Round(g, s, n, pos, data), s.inodes[n], pos / BLOCK_SIZE;
            && Shaped(g, s') && Real(g, s'.inodes[n].blocks[k])
            && s'.blocks[s'.inodes[n].blocks[k]] == Splice(before, pos % BLOCK_SIZE, data)
            && before == if x.blocks[k] == 0 then Zeros() else s.blocks[x.blocks[k]]
  {
    RoundKeeps(g, s, n, pos, data);
    var x, k := s.inodes[n], pos / BLOCK_SIZE;
    assert x.blocks[k] != 0 ==> Real(g, x.blocks[k]);
    before := if x.blocks[k] == 0 then Zeros() else s.blocks[x.blocks[k]];
  }

  lemma WithinBlock(pos: nat, q: nat)
    requires pos <= q && pos % BLOCK_SIZE + (q - pos) < BLOCK_SIZE
    ensures q / BLOCK_SIZE == pos / BLOCK_SIZE && q % BLOCK_SIZE == pos % BLOCK_SIZE + (q - pos)
  {
  }

  lemma SameBlock(pos: nat, q: nat)
    requires q / BLOCK_SIZE == pos / BLOCK_SIZE
    ensures q % BLOCK_SIZE == pos % BLOCK_SIZE + (q - pos)
  {
  }

  /** A byte of the block that a round writes. */
  lemma RoundByteIn(g: Geometry, s: Fs, n: nat, pos: nat, data: seq<Byte>, q: nat)
    requires Inv(g, s) && n < g.inodes && pos / BLOCK_SIZE < POINTERS && pos % BLOCK_SIZE + |data| <= BLOCK_SIZE
    requires !Stuck(s, n, pos) && q / BLOCK_SIZE == pos / BLOCK_SIZE
    ensures var s' := Round(g, s, n, pos, data); Shaped(g, s') && StoredAt(g, s, s', n, pos, data, q)
  {
    SameBlock(pos, q);
    if Marked(s.inodes[n], q) {
      RoundKeeps(g, s, n, pos, data);
    } else {
      var before := RoundBlock(g, s, n, pos, data);
      assert Splice(before, pos % BLOCK_SIZE, data)[q % BLOCK_SIZE] ==
        if pos <= q < pos + |data| then data[q - pos] else before[q % BLOCK_SIZE];
    }
  }

  /** A byte of another block. */
  lemma RoundByteOut(g: Geometry, s: Fs, n: nat, pos: nat, data: seq<Byte>, q: nat)
    requires Inv(g, s) && n < g.inodes && pos / BLOCK_SIZE < POINTERS && pos % BLOCK_SIZE + |data| <= BLOCK_SIZE
    requires !Stuck(s, n, pos) && q / BLOCK_SIZE != pos / BLOCK_SIZE && q < MAX_SIZE
    ensures var s' := Round(g, s, n, pos, data); Shaped(g, s') && StoredAt(g, s, s', n, pos, data, q)
  {
    if pos <= q < pos + |data| { WithinBlock(pos, q); }
    RoundKeeps(g, s, n, pos, data);
    var s', k, j := Round(g, s, n, pos, data), pos / BLOCK_SIZE, q / BLOCK_SIZE;
    var x' := s'.inodes[n];
    assert x'.blocks[j] == s.inodes[n].blocks[j];
    if Real(g, x'.blocks[j]) { assert x'.blocks[j] != x'.blocks[k]; }
  }

  lemma RoundStored(g: Geometry, s: Fs, n: nat, pos: nat, data: seq<Byte>)
    requires Inv(g, s) && n < g.inodes && pos / BLOCK_SIZE < POINTERS && pos % BLOCK_SIZE + |data| <= BLOCK_SIZE
    requires !Stuck(s, n, pos)
    ensures Shaped(g, Round(g, s, n, pos, data)) && Stored(g, s, Round(g, s, n, pos, data), n, pos, data)
  {
    RoundKeeps(g, s, n, pos, data);
    var s' := Round(g, s, n, pos, data);
    forall q | 0 <= q < MAX_SIZE ensures StoredAt(g, s, s', n, pos, data, q) {
      if q / BLOCK_SIZE == pos / BLOCK_SIZE {
        RoundByteIn(g, s, n, pos, data, q);
      } else {
        RoundByteOut(g, s, n, pos, data, q);
      }
    }
  }

  lemma RoundFilled(g: Geometry, s: Fs, n: nat, pos: nat, data: seq<Byte>)
    requires Inv(g, s) && n < g.inodes && pos / BLOCK_SIZE < POINTERS && pos % BLOCK_SIZE + |data| <= BLOCK_SIZE
    requires !Stuck(s, n, pos) && data != []
    ensures var s', x := Round(g, s, n, pos, data), s.inodes[n];
            && Inv(g, s') && Filled(g, x, s'.inodes[n], pos, pos + |data|)
            && s'.free == s.free - Holes(x, pos, pos + |data|)
  {
    RoundKeeps(g, s, n, pos, data);
    var k := pos / BLOCK_SIZE;
    assert BlocksFor(pos + |data|) == k + 1;
    assert Missing(s.inodes[n], k + 1, k + 1) == 0;
  }

  // ---- The whole loop ----

  /** A chunk either is all that is left or ends at a block boundary. */
  lemma ChunkEnds(pos: nat, len: nat)
    requires len > 0 && pos / BLOCK_SIZE < POINTERS
    ensures var c := Chunk(pos, len);
            && pos + c <= MAX_SIZE && Target(pos + c, len - c) == Target(pos, len)
            && BlocksFor(pos + c) == pos / BLOCK_SIZE + 1
            && (c < len ==> (pos + c) / BLOCK_SIZE == pos / BLOCK_SIZE + 1)
  {
  }

  /** Two stretches, the second starting in a block that the first does not cover, or empty. */
  lemma StoredThen(g: Geometry, s: Fs, s1: Fs, s2: Fs, n: nat, pos: nat, a: seq<Byte>, b: seq<Byte>)
    requires Shaped(g, s) && Shaped(g, s1) && Shaped(g, s2) && n < g.inodes
    requires Stored(g, s, s1, n, pos, a) && Stored(g, s1, s2, n, pos + |a|, b)
    requires forall q :: 0 <= q < MAX_SIZE ==> (Marked(s1.inodes[n], q) <==> Marked(s.inodes[n], q))
    ensures Stored(g, s, s2, n, pos, a + b)
  {
    forall q | 0 <= q < MAX_SIZE ensures StoredAt(g, s, s2, n, pos, a + b, q) {
      assert StoredAt(g, s, s1, n, pos, a, q) && StoredAt(g, s1, s2, n, pos + |a|, b, q);
    }
  }

  lemma FilledThen(g: Geometry, x: Inode, x1: Inode, x2: Inode, pos: nat, mid: nat, end: nat)
    requires Filled(g, x, x1, pos, mid) && Filled(g, x1, x2, mid, end) && pos < mid <= end
    requires mid == end || mid / BLOCK_SIZE == BlocksFor(mid)
    ensures Filled(g, x, x2, pos, end) && Holes(x, pos, end) == Holes(x, pos, mid) + Holes(x1, mid, end)
  {
    forall k | 0 <= k < POINTERS
      ensures FilledAt(g, x, x2, pos, end, k) && (k >= BlocksFor(mid) ==> x1.blocks[k] == x.blocks[k])
    {
      assert FilledAt(g, x, x1, pos, mid, k) && FilledAt(g, x1, x2, mid, end, k);
    }
    if mid < end {
      assert BlocksFor(mid) <= BlocksFor(end);
      MissingSplit(x, pos / BLOCK_SIZE, BlocksFor(mid), BlocksFor(end));
      MissingAbove(x, x1, BlocksFor(mid), BlocksFor(end));
    }
  }

  /** Filling pointers marks none and unmarks none. */
  lemma FilledMarks(g: Geometry, x: Inode, x': Inode, pos: nat, end: nat, q: nat)
    requires Sound(g) && Filled(g, x, x', pos, end) && q < MAX_SIZE
    ensures Marked(x', q) <==> Marked(x, q)
  {
    assert FilledAt(g, x, x', pos, end, q / BLOCK_SIZE);
  }

  /** The state with the out-of-space mark in the pointer of a position. */
  ghost function Mark(s: Fs, n: nat, pos: nat): Fs
    requires n < |s.inodes| && pos / BLOCK_SIZE < POINTERS
  {
    WithNode(s, n, SetPointer(s.inodes[n], pos / BLOCK_SIZE, NO_BLOCK))
  }

  /** A round from s to s1 that took the chunk of c bytes and left the rest. */
  ghost predicate TookChunk(g: Geometry, s: Fs, n: nat, pos: nat, data: seq<Byte>, s1: Fs, c: nat, rest: seq<Byte>)
    requires Shaped(g, s) && n < g.inodes
  {
    && Shaped(g, s1) && 0 < c == Chunk(pos, |data|) && rest == data[c..] && pos / BLOCK_SIZE < POINTERS
    && Stored(g, s, s1, n, pos, data[..c]) && Filled(g, s.inodes[n], s1.inodes[n], pos, pos + c)
    && s1.free == s.free - Holes(s.inodes[n], pos, pos + c)
  }

  /** One round that is not stuck: s1 is what the rest of the loop starts from. */
  lemma Advance(g: Geometry, s: Fs, n: nat, pos: nat, data: seq<Byte>, r: (Fs, nat))
    returns (s1: Fs, c: nat, next: nat, rest: seq<Byte>)
    requires Inv(g, s) && n < g.inodes && data != [] && pos / BLOCK_SIZE < POINTERS && !Stuck(s, n, pos)
    requires r == WriteFrom(g, s, n, pos, data)
    ensures Inv(g, s1) && TookChunk(g, s, n, pos, data, s1, c, rest) && |rest| == |data| - c
    ensures next == pos + c && r == WriteFrom(g, s1, n, next, rest)
  {
    c := Chunk(pos, |data|);
    next := pos + c;
    s1, rest := Round(g, s, n, pos, data[..c]), data[c..];
    RoundStored(g, s, n, pos, data[..c]);
    RoundFilled(g, s, n, pos, data[..c]);
    RoundKeeps(g, s, n, pos, data[..c]);
  }

  lemma StuckMarks(g: Geometry, s: Fs, n: nat, pos: nat, data: seq<Byte>)
    requires Inv(g, s) && n < g.inodes && data != [] && Stuck(s, n, pos)
    ensures WriteFrom(g, s, n, pos, data) == (Mark(s, n, pos), pos)
  {
    AllocIffFree(g, s);
    assert Grown(g, s, n, pos / BLOCK_SIZE) == Mark(s, n, pos);
  }

  /** The loop ended at `end`, in state s2 but for the mark that it leaves when it runs out of space. */
  ghost predicate Ended(g: Geometry, s: Fs, n: nat, pos: nat, data: seq<Byte>, s2: Fs, end: nat)
    requires Shaped(g, s) && n < g.inodes
  {
    && Shaped(g, s2) && pos <= end <= pos + |data|
    && Stored(g, s, s2, n, pos, data[..end - pos]) && Filled(g, s.inodes[n], s2.inodes[n], pos, end)
    && s2.free == s.free - Holes(s.inodes[n], pos, end)
    && (if end < pos + |data| && end / BLOCK_SIZE < POINTERS then Stuck(s2, n, end) else true)
  }

  /** What the loop returns, given where it ended. */
  ghost function Outcome(s2: Fs, n: nat, pos: nat, len: nat, end: nat): (Fs, nat)
    requires n < |s2.inodes|
  {
    (if end < pos + len && end / BLOCK_SIZE < POINTERS then Mark(s2, n, end) else s2, end)
  }

  lemma EndedThen(g: Geometry, s: Fs, n: nat, pos: nat, data: seq<Byte>, s1: Fs, c: nat, next: nat, rest: seq<Byte>,
                  s2: Fs, end: nat)
    requires Shaped(g, s) && n < g.inodes && TookChunk(g, s, n, pos, data, s1, c, rest)
    requires next == pos + c && Ended(g, s1, n, next, rest, s2, end)
    ensures Ended(g, s, n, pos, data, s2, end) && Outcome(s2, n, next, |rest|, end) == Outcome(s2, n, pos, |data|, end)
  {
    ChunkEnds(pos, |data|);
    var more := rest[..end - (pos + c)];
    forall q | 0 <= q < MAX_SIZE ensures Marked(s1.inodes[n], q) <==> Marked(s.inodes[n], q) {
      FilledMarks(g, s.inodes[n], s1.inodes[n], pos, pos + c, q);
    }
    StoredThen(g, s, s1, s2, n, pos, data[..c], more);
    assert data[..c] + more == data[..end - pos];
    FilledThen(g, s.inodes[n], s1.inodes[n], s2.inodes[n], pos, pos + c, end);
  }

  /**
   * The loop of fs_write from any state and position: the bytes it reports are stored, except in marked blocks; every
   * other byte is as before; exactly the empty pointers it passed have got a block; and it stops short only when stuck.
   */
  lemma Loop(g: Geometry, s: Fs, n: nat, pos: nat, data: seq<Byte>) returns (s2: Fs, end: nat)
    requires Inv(g, s) && n < g.inodes
    ensures Ended(g, s, n, pos, data, s2, end) && WriteFrom(g, s, n, pos, data) == Outcome(s2, n, pos, |data|, end)
  {
    s2, end := LoopFrom(g, s, n, pos, data, WriteFrom(g, s, n, pos, data));
  }

  lemma {:induction false} LoopFrom(g: Geometry, s: Fs, n: nat, pos: nat, data: seq<Byte>, r: (Fs, nat))
    returns (s2: Fs, end: nat)
    requires Inv(g, s) && n < g.inodes && r == WriteFrom(g, s, n, pos, data)
    ensures Ended(g, s, n, pos, data, s2, end) && r == Outcome(s2, n, pos, |data|, end)
    decreases |data|, 1
  {
    if data == [] || pos / BLOCK_SIZE >= POINTERS || Stuck(s, n, pos) {
      s2, end := s, pos;
      NoRound(g, s, n, pos, data);
    } else {
      s2, end := LoopOn(g, s, n, pos, data, r);
    }
  }

  lemma {:induction false} LoopOn(g: Geometry, s: Fs, n: nat, pos: nat, data: seq<Byte>, r: (Fs, nat))
    returns (s2: Fs, end: nat)
    requires Inv(g, s) && n < g.inodes && data != [] && pos / BLOCK_SIZE < POINTERS && !Stuck(s, n, pos)
    requires r == WriteFrom(g, s, n, pos, data)
    ensures Ended(g, s, n, pos, data, s2, end) && r == Outcome(s2, n, pos, |data|, end)
    decreases |data|, 0
  {
    var s1, c, next, rest := Advance(g, s, n, pos, data, r);
    s2, end := LoopFrom(g, s1, n, next, rest, r);
    EndedThen(g, s, n, pos, data, s1, c, next, rest, s2, end);
  }

  lemma NoRound(g: Geometry, s: Fs, n: nat, pos: nat, data: seq<Byte>)
    requires Inv(g, s) && n < g.inodes && (data == [] || pos / BLOCK_SIZE >= POINTERS || Stuck(s, n, pos))
    ensures Ended(g, s, n, pos, data, s, pos) && WriteFrom(g, s, n, pos, data) == Outcome(s, n, pos, |data|, pos)
  {
    assert data[..0] == [];
    if data != [] && Stuck(s, n, pos) { StuckMarks(g, s, n, pos, data); }
  }

  lemma LoopInv(g: Geometry, s: Fs, n: nat, pos: nat, data: seq<Byte>, s2: Fs, end: nat)
    requires Inv(g, s) && n < g.inodes && Ended(g, s, n, pos, data, s2, end)
    requires WriteFrom(g, s, n, pos, data) == Outcome(s2, n, pos, |data|, end)
    ensures Inv(g, s2)
  {
    WriteFromKeeps(g, s, n, pos, data);
    if end < pos + |data| && end / BLOCK_SIZE < POINTERS {
      NodeKeeps(g, Mark(s2, n, end), n, s2.inodes[n]);
      assert WithNode(Mark(s2, n, end), n, s2.inodes[n]) == s2;
    }
  }

  // ---- When all that fits is stored ----

  /** There are as many free blocks as the write has yet to add. */
  ghost predicate Room(s: Fs, n: nat, pos: nat, len: nat)
    requires n < |s.inodes|
  {
    Holes(s.inodes[n], pos, Target(pos, len)) <= s.free
  }

  /** A loop that ran out of space stands at a block that it has not covered. */
  lemma OutOfSpace(g: Geometry, s: Fs, n: nat, pos: nat, data: seq<Byte>, s2: Fs, end: nat)
    requires Shaped(g, s) && n < g.inodes && Ended(g, s, n, pos, data, s2, end)
    requires end < pos + |data| && end / BLOCK_SIZE < POINTERS
    ensures var x, k := s.inodes[n], end / BLOCK_SIZE;
            && x.blocks[k] == 0 && !Covers(pos, end, k) && end < Target(pos, |data|)
            && Holes(x, pos, end) == s.free < Holes(x, pos, Target(pos, |data|))
  {
    var x, k, e := s.inodes[n], end / BLOCK_SIZE, BlocksFor(Target(pos, |data|));
    assert FilledAt(g, x, s2.inodes[n], pos, end, k);
    assert x.blocks[k] == 0 && !Covers(pos, end, k);
    assert pos < end ==> BlocksFor(end) == k;
    assert k < e;
    MissingSplit(x, pos / BLOCK_SIZE, k, e);
  }

  /** A write reports all the bytes that fit into six blocks if and only if there is room for them. */
  lemma FullWriteIffRoom(g: Geometry, s: Fs, n: nat, pos: nat, data: seq<Byte>)
    requires Inv(g, s) && n < g.inodes
    ensures pos <= WriteFrom(g, s, n, pos, data).1 <= Target(pos, |data|)
    ensures WriteFrom(g, s, n, pos, data).1 == Target(pos, |data|) <==> Room(s, n, pos, |data|)
  {
    var s2, end := Loop(g, s, n, pos, data);
    WriteFromShape(g, s, n, pos, data);
    LoopInv(g, s, n, pos, data, s2, end);
    if end < pos + |data| && end / BLOCK_SIZE < POINTERS {
      OutOfSpace(g, s, n, pos, data, s2, end);
    } else {
      assert end == Target(pos, |data|);
    }
  }

  // ---- Other files ----

  /** A file that an operation does not touch keeps its contents. */
  lemma UntouchedContents(g: Geometry, s: Fs, s': Fs, n: nat, m: nat)
    requires Shaped(g, s) && Shaped(g, s') && Untouched(g, s, s', n) && m < g.inodes && m != n && Dense(g, s, m)
    ensures Dense(g, s', m) && Contents(g, s', m) == Contents(g, s, m)
  {
    var x := s.inodes[m];
    forall q | 0 <= q < x.size ensures Contents(g, s', m)[q] == Contents(g, s, m)[q] {
      SolidAt(g, x, x.size, q);
    }
  }

  lemma PeekIsContents(g: Geometry, s: Fs, n: nat, q: nat)
    requires Shaped(g, s) && n < g.inodes && Dense(g, s, n) && q < s.inodes[n].size
    ensures Contents(g, s, n)[q] == Peek(g, s, s.inodes[n], q)
  {
    SolidAt(g, s.inodes[n], s.inodes[n].size, q);
  }

  // ---- Reading ----

  /** What the block buffer holds after an attempt to read block p. */
  function BlockRead(s: Fs, p: Word, buffer: Block): Block {
    match StoreRead(s.blocks, p) case Some(b) => b case None => buffer
  }

  /** The loop of fs_read; `buffer` is what the block buffer holds, used again if a block cannot be read. */
  function ReadFrom(s: Fs, x: Inode, pos: nat, len: nat, buffer: Block): seq<Byte>
    decreases len
  {
    var k, at, c := pos / BLOCK_SIZE, pos % BLOCK_SIZE, Chunk(pos, len);
    if len == 0 || k >= POINTERS || x.blocks[k] == 0 then []
    else
      var b := BlockRead(s, x.blocks[k], buffer);
      b[at..at + c] + ReadFrom(s, x, pos + c, len - c, b)
  }

  /** How many of len bytes are there from pos on. */
  function Available(x: Inode, pos: nat, len: nat): nat {
    var remaining := if x.size > pos then x.size - pos else 0;
    if len < remaining then len else remaining
  }

  /** fs_read on inode n */
  function ReadBytes(s: Fs, n: nat, pos: Word, len: nat, buffer: Block): seq<Byte>
    requires n < |s.inodes|
  {
    ReadFrom(s, s.inodes[n], pos, Available(s.inodes[n], pos, len), buffer)
  }

  lemma ReadUnfolds(s: Fs, x: Inode, pos: nat, len: nat, buffer: Block, b: Block)
    requires len > 0 && pos / BLOCK_SIZE < POINTERS && x.blocks[pos / BLOCK_SIZE] != 0
    requires b == BlockRead(s, x.blocks[pos / BLOCK_SIZE], buffer)
    ensures var at, c := pos % BLOCK_SIZE, Chunk(pos, len);
            ReadFrom(s, x, pos, len, buffer) == b[at..at + c] + ReadFrom(s, x, pos + c, len - c, b)
  {
  }

  /** One round of fs_read on values: the chunk read, and what is left to do. */
  lemma ReadStep(m: Fs, x: Inode, at: nat, left: nat, block: Block, next: Block)
    returns (at': nat, left': nat, rest: seq<Byte>)
    requires left > 0 && at / BLOCK_SIZE < POINTERS && x.blocks[at / BLOCK_SIZE] != 0
    requires next == BlockRead(m, x.blocks[at / BLOCK_SIZE], block)
    ensures at' == at + Chunk(at, left) && left' == left - Chunk(at, left)
    ensures rest == ReadFrom(m, x, at', left', next)
    ensures ReadFrom(m, x, at, left, block) == next[at % BLOCK_SIZE..at % BLOCK_SIZE + Chunk(at, left)] + rest
  {
    ReadUnfolds(m, x, at, left, block, next);
    at', left' := at + Chunk(at, left), left - Chunk(at, left);
    rest := ReadFrom(m, x, at', left', next);
  }

  ghost predicate IsByte(g: Geometry, s: Fs, x: Inode, pos: nat, r: seq<Byte>, q: nat)
    requires Shaped(g, s) && pos <= q < pos + |r|
  {
    r[q - pos] == Peek(g, s, x, q)
  }

  /** These are the bytes of a file from a position on. */
  ghost predicate AreBytes(g: Geometry, s: Fs, x: Inode, pos: nat, r: seq<Byte>)
    requires Shaped(g, s)
  {
    forall q :: pos <= q < pos + |r| ==> IsByte(g, s, x, pos, r, q)
  }

  lemma BytesOfChunk(g: Geometry, s: Fs, x: Inode, pos: nat, c: nat)
    requires Shaped(g, s) && pos / BLOCK_SIZE < POINTERS && pos % BLOCK_SIZE + c <= BLOCK_SIZE
    requires Real(g, x.blocks[pos / BLOCK_SIZE])
    ensures var at := pos % BLOCK_SIZE; AreBytes(g, s, x, pos, s.blocks[x.blocks[pos / BLOCK_SIZE]][at..at + c])
  {
    var r := s.blocks[x.blocks[pos / BLOCK_SIZE]][pos % BLOCK_SIZE..pos % BLOCK_SIZE + c];
    forall q | pos <= q < pos + |r| ensures IsByte(g, s, x, pos, r, q) { WithinBlock(pos, q); }
  }

  lemma BytesThen(g: Geometry, s: Fs, x: Inode, pos: nat, next: nat, a: seq<Byte>, b: seq<Byte>)
    requires Shaped(g, s) && AreBytes(g, s, x, pos, a) && next == pos + |a| && AreBytes(g, s, x, next, b)
    ensures AreBytes(g, s, x, pos, a + b)
  {
    forall q | pos <= q < pos + |a + b| ensures IsByte(g, s, x, pos, a + b, q) {
      if q >= pos + |a| {
        assert IsByte(g, s, x, next, b, q);
        assert (a + b)[q - pos] == b[q - next];
      } else {
        assert IsByte(g, s, x, pos, a, q);
      }
    }
  }

  ghost predicate BackedAt(g: Geometry, x: Inode, pos: nat, end: nat, k: nat)
    requires k < POINTERS
  {
    Covers(pos, end, k) ==> Real(g, x.blocks[k])
  }

  /** Every block that holds bytes from pos up to end is there. */
  ghost predicate Backed(g: Geometry, x: Inode, pos: nat, end: nat) {
    forall k :: 0 <= k < POINTERS ==> BackedAt(g, x, pos, end, k)
  }

  lemma BackedLess(g: Geometry, x: Inode, pos: nat, next: nat, end: nat)
    requires Backed(g, x, pos, end) && pos <= next <= end
    ensures Backed(g, x, next, end)
  {
    forall k | 0 <= k < POINTERS ensures BackedAt(g, x, next, end, k) { assert BackedAt(g, x, pos, end, k); }
  }

  /** Reading where every block is there: the bytes of the file. */
  lemma {:induction false} ReadSolid(g: Geometry, s: Fs, x: Inode, pos: nat, len: nat, buffer: Block, r: seq<Byte>)
    requires Shaped(g, s) && pos + len <= MAX_SIZE && r == ReadFrom(s, x, pos, len, buffer)
    requires Backed(g, x, pos, pos + len)
    ensures |r| == len && AreBytes(g, s, x, pos, r)
    decreases len
  {
    if len > 0 {
      var next, left, b, front, rest := ReadOn(g, s, x, pos, len, buffer, r);
      ReadSolid(g, s, x, next, left, b, rest);
      BytesThen(g, s, x, pos, next, front, rest);
    }
  }

  /** One round of reading where the block is there. */
  lemma ReadOn(g: Geometry, s: Fs, x: Inode, pos: nat, len: nat, buffer: Block, r: seq<Byte>)
    returns (next: nat, left: nat, b: Block, front: seq<Byte>, rest: seq<Byte>)
    requires Shaped(g, s) && pos + len <= MAX_SIZE && len > 0 && r == ReadFrom(s, x, pos, len, buffer)
    requires Backed(g, x, pos, pos + len)
    ensures next == pos + |front| && left == len - |front| < len && AreBytes(g, s, x, pos, front)
    ensures rest == ReadFrom(s, x, next, left, b) && r == front + rest
    ensures Backed(g, x, next, next + left)
  {
    assert Covers(pos, pos + len, pos / BLOCK_SIZE) && BackedAt(g, x, pos, pos + len, pos / BLOCK_SIZE);
    b := s.blocks[x.blocks[pos / BLOCK_SIZE]];
    next, left, rest := ReadStep(s, x, pos, len, buffer, b);
    front := b[pos % BLOCK_SIZE..pos % BLOCK_SIZE + Chunk(pos, len)];
    BytesOfChunk(g, s, x, pos, |front|);
    BackedLess(g, x, pos, next, pos + len);
  }

  lemma CoversLess(pos: nat, next: nat, end: nat)
    requires pos <= next <= end
    ensures forall j :: 0 <= j < POINTERS && Covers(next, end, j) ==> Covers(pos, end, j)
  {
  }

  /** Reading stops at an empty pointer. */
  lemma {:induction false} ReadStops(s: Fs, x: Inode, pos: nat, len: nat, buffer: Block, k: nat)
    requires k < POINTERS && Covers(pos, pos + len, k) && x.blocks[k] == 0
    ensures |ReadFrom(s, x, pos, len, buffer)| < len
    decreases len
  {
    if pos / BLOCK_SIZE < POINTERS && x.blocks[pos / BLOCK_SIZE] != 0 {
      var b := BlockRead(s, x.blocks[pos / BLOCK_SIZE], buffer);
      var next, left, rest := ReadStep(s, x, pos, len, buffer, b);
      ChunkEnds(pos, len);
      ReadStops(s, x, next, left, b, k);
    }
  }

  lemma DenseBacked(g: Geometry, x: Inode, pos: nat, end: nat)
    requires Solid(g, x, x.size) && end <= x.size
    ensures Backed(g, x, pos, end)
  {
    forall k | 0 <= k < POINTERS ensures BackedAt(g, x, pos, end, k) {
      if Covers(pos, end, k) { assert k * BLOCK_SIZE < end; }
    }
  }

  lemma ReadFromSlice(g: Geometry, s: Fs, n: nat, pos: nat, len: nat, buffer: Block)
    requires Shaped(g, s) && n < g.inodes && Dense(g, s, n) && pos + len <= s.inodes[n].size
    ensures ReadFrom(s, s.inodes[n], pos, len, buffer) == Contents(g, s, n)[pos..pos + len]
  {
    var x := s.inodes[n];
    DenseBacked(g, x, pos, pos + len);
    var r, c := ReadFrom(s, x, pos, len, buffer), Contents(g, s, n);
    ReadSolid(g, s, x, pos, len, buffer, r);
    forall q | pos <= q < pos + len ensures r[q - pos] == c[q] {
      PeekIsContents(g, s, n, q);
      assert IsByte(g, s, x, pos, r, q);
    }
    assert forall i {:trigger c[pos..pos + len][i]} :: 0 <= i < len ==> c[pos..pos + len][i] == r[pos + i - pos];
  }

  /** fs_read on a dense file returns exactly the bytes from the position on, as many as asked for and there. */
  lemma ReadRefines(g: Geometry, s: Fs, n: nat, pos: Word, len: nat, buffer: Block)
    requires Shaped(g, s) && n < g.inodes && Dense(g, s, n)
    ensures var whole, bytes := Contents(g, s, n), ReadBytes(s, n, pos, len, buffer);
            if pos >= |whole| then bytes == []
            else bytes == whole[pos..if pos + len < |whole| then pos + len else |whole|]
  {
    if pos < s.inodes[n].size { ReadFromSlice(g, s, n, pos, Available(s.inodes[n], pos, len), buffer); }
  }

  // ---- Truncating ----

  lemma TruncatedKeeps(g: Geometry, s: Fs, n: nat, size: Word, now: Word)
    requires Inv(g, s) && n < g.inodes
    ensures Inv(g, Truncated(g, s, n, size, now)) && Untouched(g, s, Truncated(g, s, n, size, now), n)
  {
    var k := PointersFor(size);
    var s1 := if size < s.inodes[n].size then Release(g, s, n, k) else s;
    if size < s.inodes[n].size { ReleaseKeeps(g, s, n, k); }
    NodeKeeps(g, s1, n, s1.inodes[n].(size := size, mtime := now));
  }

  lemma KeptBlocks(size: Word)
    requires size <= MAX_SIZE
    ensures PointersFor(size) == BlocksFor(size)
    ensures forall j: nat :: j * BLOCK_SIZE < size ==> j < BlocksFor(size)
  {
  }

  /** Truncating on open, and removing, empty the inode and give every one of its blocks back. */
  lemma EmptiedKeeps(g: Geometry, s: Fs, n: nat)
    requires Inv(g, s) && n < g.inodes
    ensures Inv(g, Emptied(g, s, n)) && Untouched(g, s, Emptied(g, s, n), n) && Emptied(g, s, n).inodes[n].size == 0
  {
    ReleaseKeeps(g, s, n, 0);
    var s1 := Release(g, s, n, 0);
    NodeKeeps(g, s1, n, s1.inodes[n].(size := 0));
  }

  lemma RemovedKeeps(g: Geometry, s: Fs, n: nat)
    requires Inv(g, s) && n < g.inodes
    ensures Inv(g, Removed(g, s, n)) && Untouched(g, s, Removed(g, s, n), n)
  {
    ReleaseKeeps(g, s, n, 0);
    NodeKeeps(g, Release(g, s, n, 0), n, NO_INODE);
  }
}
