/** What a write means for later reads, for the size and for the pointers, from any state and at any position. */
module FileLaws {
  import opened Bytes
  import opened BlockCache
  import opened Inodes
  import opened FsModel
  import opened FileData

  // ---- One write, in full ----

  /** Where the loop of a write of len bytes ends before it has stored all that fits: it has run out of space. */
  predicate Short(pos: nat, len: nat, end: nat) { end < Target(pos, len) }

  ghost predicate PointerAfter(g: Geometry, x: Inode, x': Inode, pos: nat, len: nat, end: nat, k: nat)
    requires k < POINTERS
  {
    if end <= x.size || x.blocks[k] != 0 then x'.blocks[k] == x.blocks[k]
    else if Covers(pos, end, k) then Real(g, x'.blocks[k])
    else x'.blocks[k] == if k == end / BLOCK_SIZE && Short(pos, len, end) then NO_BLOCK else 0
  }

  /** A file that did not grow keeps its inode; one that grew has new blocks, and a mark where it ran out of space. */
  ghost predicate PointersAfter(g: Geometry, x: Inode, x': Inode, pos: nat, len: nat, end: nat) {
    forall k :: 0 <= k < POINTERS ==> PointerAfter(g, x, x', pos, len, end, k)
  }

  ghost predicate ByteAfter(g: Geometry, s: Fs, s': Fs, n: nat, pos: nat, data: seq<Byte>, end: nat, q: nat)
    requires Shaped(g, s) && Shaped(g, s') && n < g.inodes && q < MAX_SIZE && pos <= end <= pos + |data|
  {
    var x := s.inodes[n];
    Peek(g, s', s'.inodes[n], q) ==
      if pos <= q < end && !Marked(x, q) && (end > x.size || x.blocks[q / BLOCK_SIZE] != 0) then data[q - pos]
      else Peek(g, s, x, q)
  }

  /** The reported bytes are there, except in marked blocks and, if the file did not grow, in holes. */
  ghost predicate BytesAfter(g: Geometry, s: Fs, s': Fs, n: nat, pos: nat, data: seq<Byte>, end: nat)
    requires Shaped(g, s) && Shaped(g, s') && n < g.inodes && pos <= end <= pos + |data|
  {
    forall q :: 0 <= q < MAX_SIZE ==> ByteAfter(g, s, s', n, pos, data, end, q)
  }

  /** The state that fs_write leaves, from the state s2 in which its loop ended. */
  lemma WrittenFrom(g: Geometry, s: Fs, n: nat, pos: Word, data: seq<Byte>, now: Word)
    returns (s2: Fs, end: nat, s': Fs)
    requires Inv(g, s) && n < g.inodes
    ensures (s', end) == Written(g, s, n, pos, data, now) && Ended(g, s, n, pos, data, s2, end)
    ensures end <= pos || end <= MAX_SIZE
    ensures Shaped(g, s') && s'.blocks == s2.blocks && s'.free == s2.free && s'.used == s2.used
    ensures s'.inodes[n] ==
      if end <= s.inodes[n].size then s.inodes[n]
      else Outcome(s2, n, pos, |data|, end).0.inodes[n].(size := end, mtime := now)
  {
    s2, end := Loop(g, s, n, pos, data);
    WriteFromShape(g, s, n, pos, data);
    s' := Written(g, s, n, pos, data, now).0;
  }

  lemma ShortIffOut(pos: nat, len: nat, end: nat)
    requires pos <= end <= pos + len && (end <= pos || end <= MAX_SIZE)
    ensures Short(pos, len, end) <==> end < pos + len && end / BLOCK_SIZE < POINTERS
  {
  }

  /** fs_write from any state, at any position: the position it stops at, the size, the pointers and every byte. */
  lemma WriteLaw(g: Geometry, s: Fs, n: nat, pos: Word, data: seq<Byte>, now: Word) returns (s': Fs, end: nat)
    requires Inv(g, s) && n < g.inodes
    ensures (s', end) == Written(g, s, n, pos, data, now) && Inv(g, s') && Untouched(g, s, s', n)
    ensures pos <= end <= pos + |data| && end <= Target(pos, |data|)
    ensures Short(pos, |data|, end) <==> !Room(s, n, pos, |data|)
    ensures s'.inodes[n].size == Max(s.inodes[n].size, end) && s'.free == s.free - Holes(s.inodes[n], pos, end)
    ensures PointersAfter(g, s.inodes[n], s'.inodes[n], pos, |data|, end) && BytesAfter(g, s, s', n, pos, data, end)
  {
    var s2;
    s2, end, s' := WrittenFrom(g, s, n, pos, data, now);
    WrittenKeeps(g, s, n, pos, data, now);
    FullWriteIffRoom(g, s, n, pos, data);
    ShortIffOut(pos, |data|, end);
    PointersOf(g, s, n, pos, data, s2, end, s'.inodes[n]);
    BytesOf(g, s, n, pos, data, s2, end, s');
  }

  /** The modification time changes exactly when the file grows; type and creation time never do. */
  lemma WriteStamps(g: Geometry, s: Fs, n: nat, pos: Word, data: seq<Byte>, now: Word) returns (x': Inode, end: nat)
    requires Inv(g, s) && n < g.inodes
    ensures end == Written(g, s, n, pos, data, now).1 && n < |Written(g, s, n, pos, data, now).0.inodes|
    ensures x' == Written(g, s, n, pos, data, now).0.inodes[n]
    ensures x'.mtime == (if end > s.inodes[n].size then now else s.inodes[n].mtime)
    ensures x'.ctime == s.inodes[n].ctime && x'.kind == s.inodes[n].kind
  {
    WriteFromKeeps(g, s, n, pos, data);
    WriteFromShape(g, s, n, pos, data);
    var r := Written(g, s, n, pos, data, now);
    x', end := r.0.inodes[n], r.1;
  }

  /** Truncation, to whatever size, sets the modification time. */
  lemma TruncateStamps(g: Geometry, s: Fs, n: nat, size: Word, now: Word)
    requires Inv(g, s) && n < g.inodes
    ensures n < |Truncated(g, s, n, size, now).inodes|
    ensures var x' := Truncated(g, s, n, size, now).inodes[n];
            x'.mtime == now && x'.ctime == s.inodes[n].ctime && x'.kind == s.inodes[n].kind
  {
    ReleaseKeeps(g, s, n, PointersFor(size));
  }

  lemma PointersOf(g: Geometry, s: Fs, n: nat, pos: nat, data: seq<Byte>, s2: Fs, end: nat, x': Inode)
    requires Shaped(g, s) && n < g.inodes && Ended(g, s, n, pos, data, s2, end)
    requires Short(pos, |data|, end) <==> end < pos + |data| && end / BLOCK_SIZE < POINTERS
    requires x'.blocks ==
      if end <= s.inodes[n].size then s.inodes[n].blocks else Outcome(s2, n, pos, |data|, end).0.inodes[n].blocks
    ensures PointersAfter(g, s.inodes[n], x', pos, |data|, end)
  {
    var x := s.inodes[n];
    if Short(pos, |data|, end) { OutOfSpace(g, s, n, pos, data, s2, end); }
    forall k | 0 <= k < POINTERS ensures PointerAfter(g, x, x', pos, |data|, end, k) {
      assert FilledAt(g, x, s2.inodes[n], pos, end, k);
    }
  }

  lemma BytesOf(g: Geometry, s: Fs, n: nat, pos: nat, data: seq<Byte>, s2: Fs, end: nat, s': Fs)
    requires Shaped(g, s) && Shaped(g, s') && n < g.inodes && Ended(g, s, n, pos, data, s2, end)
    requires s'.blocks == s2.blocks && PointersAfter(g, s.inodes[n], s'.inodes[n], pos, |data|, end)
    requires s'.inodes[n].blocks ==
      if end <= s.inodes[n].size then s.inodes[n].blocks else Outcome(s2, n, pos, |data|, end).0.inodes[n].blocks
    ensures BytesAfter(g, s, s', n, pos, data, end)
  {
    var x, x2, x' := s.inodes[n], s2.inodes[n], s'.inodes[n];
    forall q | 0 <= q < MAX_SIZE ensures ByteAfter(g, s, s', n, pos, data, end, q) {
      var k := q / BLOCK_SIZE;
      assert StoredAt(g, s, s2, n, pos, data[..end - pos], q) && FilledAt(g, x, x2, pos, end, k);
      assert PointerAfter(g, x, x', pos, |data|, end, k);
    }
  }

  // ---- Reading back ----

  /** No block that holds bytes from pos up to end carries the mark. */
  predicate Unmarked(x: Inode, pos: nat, end: nat) {
    forall k :: 0 <= k < POINTERS && Covers(pos, end, k) ==> x.blocks[k] != NO_BLOCK
  }

  /** Every block that holds bytes from pos up to end has a pointer. */
  predicate Unbroken(x: Inode, pos: nat, end: nat) {
    forall k :: 0 <= k < POINTERS && Covers(pos, end, k) ==> x.blocks[k] != 0
  }

  lemma CoversPart(pos: nat, end: nat, later: nat, k: nat)
    requires end <= later && Covers(pos, end, k)
    ensures Covers(pos, later, k)
  {
  }

  /** Every block of the reported bytes is there afterwards, if the file grew or had no hole there. */
  lemma CoveredAfter(g: Geometry, s: Fs, x: Inode, x': Inode, n: nat, pos: nat, len: nat, end: nat, k: nat)
    requires Inv(g, s) && n < g.inodes && x == s.inodes[n] && PointersAfter(g, x, x', pos, len, end)
    requires k < POINTERS && Covers(pos, end, k) && x.blocks[k] != NO_BLOCK && (end > x.size || x.blocks[k] != 0)
    ensures Real(g, x'.blocks[k])
  {
    assert PointerAfter(g, x, x', pos, len, end, k);
  }

  /**
   * What fs_write reports is what fs_read returns from the same position, if and only if the file grew or none of
   * the blocks was a hole; for every file and every position, as long as the write meets no out-of-space mark.
   */
  lemma ReadBack(g: Geometry, s: Fs, n: nat, pos: Word, data: seq<Byte>, now: Word, buffer: Block)
    returns (s': Fs, end: nat)
    requires Inv(g, s) && n < g.inodes && Unmarked(s.inodes[n], pos, Target(pos, |data|))
    ensures (s', end) == Written(g, s, n, pos, data, now) && Shaped(g, s') && pos <= end <= pos + |data|
    ensures ReadBytes(s', n, pos, end - pos, buffer) == data[..end - pos]
      <==> end > s.inodes[n].size || Unbroken(s.inodes[n], pos, end)
  {
    s', end := WriteLaw(g, s, n, pos, data, now);
    var x, x' := s.inodes[n], s'.inodes[n];
    if end > x.size || Unbroken(x, pos, end) {
      ReadsStored(g, s, s', n, pos, data, end, buffer);
    } else {
      var k :| 0 <= k < POINTERS && Covers(pos, end, k) && x.blocks[k] == 0;
      assert PointerAfter(g, x, x', pos, |data|, end, k);
      ReadStops(s', x', pos, end - pos, buffer, k);
    }
  }

  lemma ReadsStored(g: Geometry, s: Fs, s': Fs, n: nat, pos: Word, data: seq<Byte>, end: nat, buffer: Block)
    requires Inv(g, s) && Shaped(g, s') && n < g.inodes && pos <= end <= pos + |data| && end <= Target(pos, |data|)
    requires Unmarked(s.inodes[n], pos, Target(pos, |data|)) && s'.inodes[n].size == Max(s.inodes[n].size, end)
    requires PointersAfter(g, s.inodes[n], s'.inodes[n], pos, |data|, end) && BytesAfter(g, s, s', n, pos, data, end)
    requires end > s.inodes[n].size || Unbroken(s.inodes[n], pos, end)
    ensures ReadBytes(s', n, pos, end - pos, buffer) == data[..end - pos]
  {
    var x, x', r := s.inodes[n], s'.inodes[n], ReadBytes(s', n, pos, end - pos, buffer);
    if pos < end {
      BackedAfter(g, s, x, x', n, pos, |data|, end);
      ReadSolid(g, s', x', pos, end - pos, buffer, r);
      BytesAgree(g, s, s', n, pos, data, end, r);
    }
  }

  lemma BackedAfter(g: Geometry, s: Fs, x: Inode, x': Inode, n: nat, pos: nat, len: nat, end: nat)
    requires Inv(g, s) && n < g.inodes && x == s.inodes[n] && PointersAfter(g, x, x', pos, len, end)
    requires Unmarked(x, pos, Target(pos, len)) && end <= Target(pos, len) && (end > x.size || Unbroken(x, pos, end))
    ensures Backed(g, x', pos, end)
  {
    forall k | 0 <= k < POINTERS ensures BackedAt(g, x', pos, end, k) {
      if Covers(pos, end, k) {
        CoversPart(pos, end, Target(pos, len), k);
        CoveredAfter(g, s, x, x', n, pos, len, end, k);
      }
    }
  }

  lemma BytesAgree(g: Geometry, s: Fs, s': Fs, n: nat, pos: nat, data: seq<Byte>, end: nat, r: seq<Byte>)
    requires Shaped(g, s) && Shaped(g, s') && n < g.inodes && pos < end <= pos + |data| && end <= Target(pos, |data|)
    requires Unmarked(s.inodes[n], pos, Target(pos, |data|)) && BytesAfter(g, s, s', n, pos, data, end)
    requires end > s.inodes[n].size || Unbroken(s.inodes[n], pos, end)
    requires |r| == end - pos && AreBytes(g, s', s'.inodes[n], pos, r)
    ensures r == data[..end - pos]
  {
    forall i | 0 <= i < |r| ensures r[i] == data[i] {
      var q := pos + i;
      assert IsByte(g, s', s'.inodes[n], pos, r, q) && ByteAfter(g, s, s', n, pos, data, end, q);
      CoversByte(pos, end, q);
      CoversPart(pos, end, Target(pos, |data|), q / BLOCK_SIZE);
    }
  }

  lemma CoversByte(pos: nat, end: nat, q: nat)
    requires pos <= q < end
    ensures Covers(pos, end, q / BLOCK_SIZE)
  {
  }

  /** A write inside the size that meets a hole: the inode is not saved, the bytes are lost and the blocks leak. */
  lemma HoleWriteIsLost(g: Geometry, s: Fs, n: nat, pos: Word, data: seq<Byte>, now: Word, buffer: Block)
    returns (s': Fs, end: nat)
    requires Inv(g, s) && n < g.inodes && Unmarked(s.inodes[n], pos, Target(pos, |data|))
    requires pos + |data| <= s.inodes[n].size && Room(s, n, pos, |data|)
    requires !Unbroken(s.inodes[n], pos, Target(pos, |data|))
    ensures (s', end) == Written(g, s, n, pos, data, now) && Inv(g, s') && end == Target(pos, |data|)
    ensures s'.inodes[n].blocks == s.inodes[n].blocks && s'.free == s.free - Holes(s.inodes[n], pos, end)
    ensures ReadBytes(s', n, pos, end - pos, buffer) != data[..end - pos]
  {
    s', end := ReadBack(g, s, n, pos, data, now, buffer);
    var s1, end1 := WriteLaw(g, s, n, pos, data, now);
    var x, x' := s.inodes[n], s'.inodes[n];
    forall k | 0 <= k < POINTERS ensures x'.blocks[k] == x.blocks[k] {
      assert PointerAfter(g, x, x', pos, |data|, end, k);
    }
  }

  // ---- The out-of-space mark ----

  predicate NoMark(x: Inode) { NO_BLOCK !in x.blocks }

  /** A write into marked blocks only: all of it is reported, nothing is stored, and no block is taken. */
  lemma MarkedWriteIsLost(g: Geometry, s: Fs, n: nat, pos: Word, data: seq<Byte>, now: Word)
    requires Inv(g, s) && n < g.inodes
    requires forall k :: 0 <= k < POINTERS && Covers(pos, Target(pos, |data|), k) ==> s.inodes[n].blocks[k] == NO_BLOCK
    ensures var (s', end) := Written(g, s, n, pos, data, now);
            end == Target(pos, |data|) && s'.blocks == s.blocks && s'.used == s.used && s'.free == s.free
  {
    MarkedLoop(g, s, n, pos, data, WriteFrom(g, s, n, pos, data));
  }

  lemma {:induction false} MarkedLoop(g: Geometry, s: Fs, n: nat, pos: nat, data: seq<Byte>, r: (Fs, nat))
    requires Shaped(g, s) && n < g.inodes && r == WriteFrom(g, s, n, pos, data)
    requires forall k :: 0 <= k < POINTERS && Covers(pos, Target(pos, |data|), k) ==> s.inodes[n].blocks[k] == NO_BLOCK
    ensures r == (s, Target(pos, |data|))
    decreases |data|
  {
    if data != [] && pos / BLOCK_SIZE < POINTERS {
      var next, rest := MarkedRound(g, s, n, pos, data, r);
      CoversLess(pos, next, Target(pos, |data|));
      MarkedLoop(g, s, n, next, rest, r);
    }
  }

  lemma MarkedRound(g: Geometry, s: Fs, n: nat, pos: nat, data: seq<Byte>, r: (Fs, nat))
    returns (next: nat, rest: seq<Byte>)
    requires Shaped(g, s) && n < g.inodes && r == WriteFrom(g, s, n, pos, data) && data != []
    requires pos / BLOCK_SIZE < POINTERS
    requires forall k :: 0 <= k < POINTERS && Covers(pos, Target(pos, |data|), k) ==> s.inodes[n].blocks[k] == NO_BLOCK
    ensures r == WriteFrom(g, s, n, next, rest) && |rest| < |data| && pos <= next
    ensures next <= Target(pos, |data|) == Target(next, |rest|)
  {
    ChunkEnds(pos, |data|);
    assert Covers(pos, Target(pos, |data|), pos / BLOCK_SIZE);
    next, rest := pos + Chunk(pos, |data|), data[Chunk(pos, |data|)..];
  }

  /** An inode without marks gets one exactly when the file grows and the space runs out. */
  lemma MarkIffOutOfSpace(g: Geometry, s: Fs, n: nat, pos: Word, data: seq<Byte>, now: Word) returns (s': Fs, end: nat)
    requires Inv(g, s) && n < g.inodes && NoMark(s.inodes[n])
    ensures (s', end) == Written(g, s, n, pos, data, now) && Shaped(g, s')
    ensures NoMark(s'.inodes[n]) <==> end <= s.inodes[n].size || Room(s, n, pos, |data|)
  {
    s', end := WriteLaw(g, s, n, pos, data, now);
    var x, x' := s.inodes[n], s'.inodes[n];
    if end <= x.size || Room(s, n, pos, |data|) {
      forall k | 0 <= k < POINTERS ensures x'.blocks[k] != NO_BLOCK {
        assert x.blocks[k] in x.blocks && PointerAfter(g, x, x', pos, |data|, end, k);
      }
    } else {
      var s2, end2, s2' := WrittenFrom(g, s, n, pos, data, now);
      ShortIffOut(pos, |data|, end);
      OutOfSpace(g, s, n, pos, data, s2, end);
      assert PointerAfter(g, x, x', pos, |data|, end, end / BLOCK_SIZE);
      assert x'.blocks[end / BLOCK_SIZE] in x'.blocks;
    }
  }

  // ---- The size ----

  /**
   * A write stores nothing exactly when there is nothing to write, the position is beyond six blocks, or its block is
   * not there and none is free; the size still grows to the position, and out of space the pointer is left marked.
   */
  lemma EmptyWrite(g: Geometry, s: Fs, n: nat, pos: Word, data: seq<Byte>, now: Word) returns (s': Fs, end: nat)
    requires Inv(g, s) && n < g.inodes
    ensures (s', end) == Written(g, s, n, pos, data, now) && Shaped(g, s')
    ensures end == pos <==> data == [] || pos / BLOCK_SIZE >= POINTERS || Stuck(s, n, pos)
    ensures s'.inodes[n].size > s.inodes[n].size && end == pos <==>
      pos > s.inodes[n].size && (data == [] || pos / BLOCK_SIZE >= POINTERS || Stuck(s, n, pos))
    ensures end == pos ==> s'.blocks == s.blocks && s'.free == s.free
    ensures end == pos > s.inodes[n].size && data != [] && pos / BLOCK_SIZE < POINTERS ==>
      s'.inodes[n].blocks[pos / BLOCK_SIZE] == NO_BLOCK
  {
    s', end := WriteLaw(g, s, n, pos, data, now);
    if data == [] || pos / BLOCK_SIZE >= POINTERS {
      assert WriteFrom(g, s, n, pos, data) == (s, pos);
    } else if Stuck(s, n, pos) {
      StuckMarks(g, s, n, pos, data);
    } else {
      var s2, end2, s2' := WrittenFrom(g, s, n, pos, data, now);
      assert FilledAt(g, s.inodes[n], s2.inodes[n], pos, end, pos / BLOCK_SIZE);
    }
  }

  /** The blocks that a grown file needs: those it wrote are not marked, and the others are there. */
  ghost predicate Joined(g: Geometry, x: Inode, pos: nat, end: nat) {
    end <= MAX_SIZE && forall k :: 0 <= k < POINTERS && k * BLOCK_SIZE < end ==>
      if Covers(pos, end, k) then x.blocks[k] != NO_BLOCK else Real(g, x.blocks[k])
  }

  /** A dense file stays dense exactly when it does not grow, or grows without a gap and within six blocks. */
  lemma DenseIff(g: Geometry, s: Fs, n: nat, pos: Word, data: seq<Byte>, now: Word) returns (s': Fs, end: nat)
    requires Inv(g, s) && n < g.inodes && Dense(g, s, n)
    ensures (s', end) == Written(g, s, n, pos, data, now) && Shaped(g, s')
    ensures Dense(g, s', n) <==> end <= s.inodes[n].size || Joined(g, s.inodes[n], pos, end)
  {
    s', end := WriteLaw(g, s, n, pos, data, now);
    var x, x' := s.inodes[n], s'.inodes[n];
    forall k | 0 <= k < POINTERS && k * BLOCK_SIZE < x'.size
      ensures Real(g, x'.blocks[k]) <==>
        end <= x.size || (if Covers(pos, end, k) then x.blocks[k] != NO_BLOCK else Real(g, x.blocks[k]))
    {
      assert PointerAfter(g, x, x', pos, |data|, end, k);
    }
  }
}
