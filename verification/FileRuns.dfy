/** A dense file is a sequence of bytes: every sequence of calls does to the file what it does to the sequence. */
module FileRuns {
  import opened Bytes
  import opened BlockCache
  import opened Inodes
  import opened FsModel
  import opened FileData
  import opened FileLaws

  // ---- One call ----

  /** The first pos bytes, then data, then whatever lay beyond it. */
  function Overwritten(before: seq<Byte>, pos: nat, data: seq<Byte>): seq<Byte>
    requires pos <= |before|
  {
    before[..pos] + data + if pos + |data| < |before| then before[pos + |data|..] else []
  }

  lemma JoinsDense(g: Geometry, s: Fs, n: nat, pos: nat, len: nat, end: nat)
    requires Shaped(g, s) && n < g.inodes && Dense(g, s, n) && pos <= s.inodes[n].size < end <= Target(pos, len)
    requires Unmarked(s.inodes[n], pos, Target(pos, len))
    ensures Joined(g, s.inodes[n], pos, end)
  {
    var x := s.inodes[n];
    forall k | 0 <= k < POINTERS && k * BLOCK_SIZE < end
      ensures if Covers(pos, end, k) then x.blocks[k] != NO_BLOCK else Real(g, x.blocks[k])
    {
      if Covers(pos, end, k) { CoversPart(pos, end, Target(pos, len), k); } else { assert k * BLOCK_SIZE < x.size; }
    }
  }

  /**
   * fs_write on a dense file, at a position inside it, that meets no mark: it replaces bytes from the position on by as
   * much of the data as it reports, which is all that fits into six blocks exactly when there is room; every other
   * file is unchanged.
   */
  lemma WriteRefines(g: Geometry, s: Fs, n: nat, pos: Word, data: seq<Byte>, now: Word) returns (s': Fs, end: nat)
    requires Inv(g, s) && n < g.inodes && Dense(g, s, n) && pos <= s.inodes[n].size
    requires Unmarked(s.inodes[n], pos, Target(pos, |data|))
    ensures (s', end) == Written(g, s, n, pos, data, now) && Inv(g, s') && Untouched(g, s, s', n)
    ensures pos <= end <= Target(pos, |data|) && (end == Target(pos, |data|) <==> Room(s, n, pos, |data|))
    ensures Dense(g, s', n) && Contents(g, s', n) == Overwritten(Contents(g, s, n), pos, data[..end - pos])
  {
    s', end := WriteLaw(g, s, n, pos, data, now);
    var s1, end1 := DenseIff(g, s, n, pos, data, now);
    if end > s.inodes[n].size { JoinsDense(g, s, n, pos, |data|, end); }
    var before, after := Contents(g, s, n), Contents(g, s', n);
    forall q | 0 <= q < |after| ensures after[q] == Overwritten(before, pos, data[..end - pos])[q] {
      ContentsByte(g, s, s', n, pos, data, end, q);
    }
  }

  lemma ContentsByte(g: Geometry, s: Fs, s': Fs, n: nat, pos: nat, data: seq<Byte>, end: nat, q: nat)
    requires Shaped(g, s) && Shaped(g, s') && n < g.inodes && Dense(g, s, n) && Dense(g, s', n)
    requires pos <= s.inodes[n].size && pos <= end <= pos + |data| && end <= Target(pos, |data|)
    requires Unmarked(s.inodes[n], pos, Target(pos, |data|)) && BytesAfter(g, s, s', n, pos, data, end)
    requires s'.inodes[n].size == Max(s.inodes[n].size, end) && q < s'.inodes[n].size
    ensures Contents(g, s', n)[q] == if pos <= q < end then data[q - pos] else Contents(g, s, n)[q]
  {
    PeekIsContents(g, s', n, q);
    assert ByteAfter(g, s, s', n, pos, data, end, q);
    if q < s.inodes[n].size {
      PeekIsContents(g, s, n, q);
      SolidAt(g, s.inodes[n], s.inodes[n].size, q);
    }
    if pos <= q < end {
      CoversByte(pos, end, q);
      CoversPart(pos, end, Target(pos, |data|), q / BLOCK_SIZE);
    }
  }

  lemma DenseUnbroken(g: Geometry, s: Fs, n: nat, pos: nat, end: nat)
    requires Shaped(g, s) && n < g.inodes && Dense(g, s, n) && end <= s.inodes[n].size
    ensures Unbroken(s.inodes[n], pos, end)
  {
    forall k | 0 <= k < POINTERS && Covers(pos, end, k) ensures s.inodes[n].blocks[k] != 0 {
      assert k * BLOCK_SIZE < s.inodes[n].size;
    }
  }

  /** In a dense file there is no hole to lose bytes in: what fs_write reports, fs_read returns. */
  lemma WriteThenRead(g: Geometry, s: Fs, n: nat, pos: Word, data: seq<Byte>, now: Word, buffer: Block)
    returns (s': Fs, end: nat)
    requires Inv(g, s) && n < g.inodes && Dense(g, s, n) && Unmarked(s.inodes[n], pos, Target(pos, |data|))
    ensures (s', end) == Written(g, s, n, pos, data, now) && Shaped(g, s') && pos <= end <= pos + |data|
    ensures ReadBytes(s', n, pos, end - pos, buffer) == data[..end - pos]
  {
    s', end := ReadBack(g, s, n, pos, data, now, buffer);
    if end <= s.inodes[n].size { DenseUnbroken(g, s, n, pos, end); }
  }

  /**
   * fs_truncate to any size: a dense file stays dense exactly when it is cut short or the blocks up to the new size are
   * there; the bytes up to the smaller of the two sizes are as before.
   */
  lemma TruncateRefines(g: Geometry, s: Fs, n: nat, size: Word, now: Word) returns (s': Fs)
    requires Inv(g, s) && n < g.inodes && Dense(g, s, n)
    ensures s' == Truncated(g, s, n, size, now) && Inv(g, s') && Untouched(g, s, s', n) && s'.inodes[n].size == size
    ensures Dense(g, s', n) <==> size <= s.inodes[n].size || Solid(g, s.inodes[n], size)
    ensures Dense(g, s', n) ==>
      forall q :: 0 <= q < size && q < s.inodes[n].size ==> Contents(g, s', n)[q] == Contents(g, s, n)[q]
  {
    TruncatedKeeps(g, s, n, size, now);
    s' := Truncated(g, s, n, size, now);
    var x, x' := s.inodes[n], s'.inodes[n];
    if size < x.size {
      KeptBlocks(size);
      ReleaseKeeps(g, s, n, BlocksFor(size));
    }
    if Dense(g, s', n) {
      forall q | 0 <= q < size && q < x.size ensures Contents(g, s', n)[q] == Contents(g, s, n)[q] {
        SolidAt(g, x', size, q);
        assert q / BLOCK_SIZE * BLOCK_SIZE < size;
      }
    }
  }

  // ---- Space ----

  /** There are free blocks for every pointer of the file that is still empty. */
  ghost predicate Spacious(s: Fs, n: nat)
    requires n < |s.inodes|
  {
    Missing(s.inodes[n], 0, POINTERS) <= s.free
  }

  lemma {:induction false} MissingMonotone(x: Inode, k: nat, e: nat)
    ensures Missing(x, k, e) <= Missing(x, k, POINTERS)
    decreases POINTERS - k
  {
    if k < e && k < POINTERS { MissingMonotone(x, k + 1, e); }
  }

  lemma SpaciousRoom(s: Fs, n: nat, pos: nat, len: nat)
    requires n < |s.inodes| && Spacious(s, n)
    ensures Room(s, n, pos, len)
  {
    var x, k := s.inodes[n], pos / BLOCK_SIZE;
    if k <= POINTERS { MissingSplit(x, 0, k, POINTERS); }
    MissingMonotone(x, k, BlocksFor(Target(pos, len)));
  }

  /** Filling the empty pointers from a up to b. */
  lemma {:induction false} MissingFilled(x: Inode, x': Inode, a: nat, b: nat, k: nat)
    requires forall j :: 0 <= j < POINTERS ==>
      (x'.blocks[j] == 0 <==> x.blocks[j] == 0 && !(a <= j < b))
    ensures Missing(x', k, POINTERS) == Missing(x, k, POINTERS) - Missing(x, Max(k, a), b)
    decreases POINTERS - k
  {
    if k < POINTERS { MissingFilled(x, x', a, b, k + 1); }
  }

  lemma SpaceAfterWrite(g: Geometry, s: Fs, s': Fs, n: nat, pos: nat, len: nat, end: nat)
    requires Shaped(g, s) && Shaped(g, s') && n < g.inodes && Spacious(s, n) && pos <= end && !Short(pos, len, end)
    requires s'.free == s.free - Holes(s.inodes[n], pos, end)
    requires PointersAfter(g, s.inodes[n], s'.inodes[n], pos, len, end)
    requires end > s.inodes[n].size || Unbroken(s.inodes[n], pos, end)
    ensures Spacious(s', n)
  {
    var x, x' := s.inodes[n], s'.inodes[n];
    var a, b := pos / BLOCK_SIZE, if pos < end then BlocksFor(end) else 0;
    forall j | 0 <= j < POINTERS ensures x'.blocks[j] == 0 <==> x.blocks[j] == 0 && !(a <= j < b) {
      assert PointerAfter(g, x, x', pos, len, end, j);
      assert Covers(pos, end, j) <==> a <= j < b;
    }
    MissingFilled(x, x', a, b, 0);
  }

  lemma {:induction false} MissingEmptied(x: Inode, k: nat, j: nat)
    requires j <= k < POINTERS && x.blocks[k] != 0
    ensures Missing(SetPointer(x, k, 0), j, POINTERS) == Missing(x, j, POINTERS) + 1
    decreases k - j
  {
    if j < k { MissingEmptied(x, k, j + 1); } else { MissingAbove(x, SetPointer(x, k, 0), k + 1, POINTERS); }
  }

  /** Every block given back is one that the file then misses. */
  lemma {:induction false} SpaceAfterRelease(g: Geometry, s: Fs, n: nat, k: nat)
    requires Inv(g, s) && n < g.inodes && NoMark(s.inodes[n]) && Spacious(s, n)
    ensures var s' := Release(g, s, n, k); NoMark(s'.inodes[n]) && Spacious(s', n)
    decreases POINTERS - k
  {
    if k < POINTERS {
      var x := s.inodes[n];
      if x.blocks[k] == 0 {
        SpaceAfterRelease(g, s, n, k + 1);
      } else {
        assert x.blocks[k] in x.blocks;
        FreeKeeps(g, s, n, k);
        MissingEmptied(x, k, 0);
        SpaceAfterRelease(g, WithNode(Freed(g, s, x.blocks[k]), n, SetPointer(x, k, 0)), n, k + 1);
      }
    }
  }

  // ---- Sequences of calls on one file ----

  datatype Op =
    | Write(pos: Word, data: seq<Byte>, now: Word)
    | Read(pos: Word, len: nat, buffer: Block)
    | Truncate(size: Word, now: Word)

  datatype Answer = Count(n: nat) | Bytes(bytes: seq<Byte>) | Resized

  /** The call on the file system, and what it reports. */
  ghost function Step(g: Geometry, s: Fs, n: nat, op: Op): (r: (Fs, Answer))
    requires Shaped(g, s) && n < g.inodes
    ensures Shaped(g, r.0)
  {
    match op
    case Write(pos, data, now) =>
      WriteFromShape(g, s, n, pos, data);
      var (s', end) := Written(g, s, n, pos, data, now);
      (s', Count(end - pos))
    case Read(pos, len, buffer) => (s, Bytes(ReadBytes(s, n, pos, len, buffer)))
    case Truncate(size, now) => (Truncated(g, s, n, size, now), Resized)
  }

  function Min(a: nat, b: nat): nat { if a < b then a else b }

  /** The call on a sequence of bytes: writing stops at six blocks. */
  function Model(c: seq<Byte>, op: Op): (r: (seq<Byte>, Answer))
    requires |c| <= MAX_SIZE && Inside(c, op)
    ensures |r.0| <= MAX_SIZE
  {
    match op
    case Write(pos, data, _) => var m := Min(|data|, MAX_SIZE - pos); (Overwritten(c, pos, data[..m]), Count(m))
    case Read(pos, len, _) => (c, Bytes(if pos < |c| then c[pos..Min(pos + len, |c|)] else []))
    case Truncate(size, _) => (c[..size], Resized)
  }

  /** Writes start inside the file or at its end, and truncation makes it no longer. */
  predicate Inside(c: seq<Byte>, op: Op) {
    match op
    case Write(pos, _, _) => pos <= |c|
    case Read(_, _, _) => true
    case Truncate(size, _) => size <= |c|
  }

  /** A dense file without marks, and space for all the blocks it could still take. */
  ghost predicate Plain(g: Geometry, s: Fs, n: nat) {
    Inv(g, s) && n < g.inodes && Dense(g, s, n) && NoMark(s.inodes[n]) && Spacious(s, n)
  }

  lemma NoMarkUnmarked(x: Inode, pos: nat, end: nat)
    requires NoMark(x)
    ensures Unmarked(x, pos, end)
  {
    forall k | 0 <= k < POINTERS && Covers(pos, end, k) ensures x.blocks[k] != NO_BLOCK {
      assert x.blocks[k] in x.blocks;
    }
  }

  /** What one call does to the file, to the other files, and what it answers. */
  ghost predicate Refined(g: Geometry, s: Fs, n: nat, op: Op, s': Fs, a: Answer)
    requires Plain(g, s, n)
  {
    && Plain(g, s', n) && Untouched(g, s, s', n) && Inside(Contents(g, s, n), op)
    && (Contents(g, s', n), a) == Model(Contents(g, s, n), op)
  }

  lemma WriteStep(g: Geometry, s: Fs, n: nat, op: Op) returns (s': Fs, a: Answer)
    requires Plain(g, s, n) && op.Write? && Inside(Contents(g, s, n), op)
    ensures (s', a) == Step(g, s, n, op) && Refined(g, s, n, op, s', a)
  {
    var pos, data, now := op.pos, op.data, op.now;
    NoMarkUnmarked(s.inodes[n], pos, Target(pos, |data|));
    SpaciousRoom(s, n, pos, |data|);
    var end;
    s', end := WriteRefines(g, s, n, pos, data, now);
    a := Count(end - pos);
    PlainAfterWrite(g, s, n, pos, data, now);
  }

  lemma PlainAfterWrite(g: Geometry, s: Fs, n: nat, pos: Word, data: seq<Byte>, now: Word)
    requires Plain(g, s, n) && pos <= s.inodes[n].size && Room(s, n, pos, |data|)
    ensures var s' := Written(g, s, n, pos, data, now).0; n < |s'.inodes| && NoMark(s'.inodes[n]) && Spacious(s', n)
  {
    var s', end := WriteLaw(g, s, n, pos, data, now);
    var s1, end1 := MarkIffOutOfSpace(g, s, n, pos, data, now);
    if end <= s.inodes[n].size { DenseUnbroken(g, s, n, pos, end); }
    SpaceAfterWrite(g, s, s', n, pos, |data|, end);
  }

  lemma TruncateStep(g: Geometry, s: Fs, n: nat, op: Op) returns (s': Fs, a: Answer)
    requires Plain(g, s, n) && op.Truncate? && Inside(Contents(g, s, n), op)
    ensures (s', a) == Step(g, s, n, op) && Refined(g, s, n, op, s', a)
  {
    s' := TruncateRefines(g, s, n, op.size, op.now);
    a := Resized;
    PlainAfterTruncate(g, s, n, op.size, op.now);
    assert Contents(g, s', n) == Contents(g, s, n)[..op.size];
  }

  lemma PlainAfterTruncate(g: Geometry, s: Fs, n: nat, size: Word, now: Word)
    requires Plain(g, s, n)
    ensures var s' := Truncated(g, s, n, size, now); n < |s'.inodes| && NoMark(s'.inodes[n]) && Spacious(s', n)
  {
    var k, s' := PointersFor(size), Truncated(g, s, n, size, now);
    if size < s.inodes[n].size {
      SpaceAfterRelease(g, s, n, k);
      MissingAbove(Release(g, s, n, k).inodes[n], s'.inodes[n], 0, POINTERS);
    } else {
      MissingAbove(s.inodes[n], s'.inodes[n], 0, POINTERS);
    }
  }

  lemma ReadStep(g: Geometry, s: Fs, n: nat, op: Op) returns (s': Fs, a: Answer)
    requires Plain(g, s, n) && op.Read?
    ensures (s', a) == Step(g, s, n, op) && Refined(g, s, n, op, s', a)
  {
    s', a := s, Bytes(ReadBytes(s, n, op.pos, op.len, op.buffer));
    ReadAnswer(g, s, n, op);
  }

  lemma ReadAnswer(g: Geometry, s: Fs, n: nat, op: Op)
    requires Shaped(g, s) && n < g.inodes && Dense(g, s, n) && op.Read?
    ensures Model(Contents(g, s, n), op) == (Contents(g, s, n), Bytes(ReadBytes(s, n, op.pos, op.len, op.buffer)))
  {
    ReadRefines(g, s, n, op.pos, op.len, op.buffer);
  }

  /** One call does to the file what it does to the sequence, and touches no other file. */
  lemma StepRefines(g: Geometry, s: Fs, n: nat, op: Op) returns (s': Fs, a: Answer)
    requires Plain(g, s, n) && Inside(Contents(g, s, n), op)
    ensures (s', a) == Step(g, s, n, op) && Refined(g, s, n, op, s', a)
  {
    if op.Write? {
      s', a := WriteStep(g, s, n, op);
    } else if op.Truncate? {
      s', a := TruncateStep(g, s, n, op);
    } else {
      s', a := ReadStep(g, s, n, op);
    }
  }

  // ---- Whole sequences ----

  ghost function Run(g: Geometry, s: Fs, n: nat, ops: seq<Op>): (Fs, seq<Answer>)
    requires Shaped(g, s) && n < g.inodes
    decreases |ops|
  {
    if ops == [] then (s, [])
    else
      var (s1, a) := Step(g, s, n, ops[0]);
      var (s2, answers) := Run(g, s1, n, ops[1..]);
      (s2, [a] + answers)
  }

  predicate InsideRun(c: seq<Byte>, ops: seq<Op>)
    requires |c| <= MAX_SIZE
    decreases |ops|
  {
    ops == [] || (Inside(c, ops[0]) && InsideRun(Model(c, ops[0]).0, ops[1..]))
  }

  function ModelRun(c: seq<Byte>, ops: seq<Op>): (seq<Byte>, seq<Answer>)
    requires |c| <= MAX_SIZE && InsideRun(c, ops)
    decreases |ops|
  {
    if ops == [] then (c, [])
    else
      var (c1, a) := Model(c, ops[0]);
      var (c2, answers) := ModelRun(c1, ops[1..]);
      (c2, [a] + answers)
  }

  /**
   * Over every sequence of writes, reads and truncations that stay inside the file, each call answers as it would for a
   * sequence of bytes, the file then holds that sequence, and no other file has changed.
   */
  lemma {:induction false} ContentsLaw(g: Geometry, s: Fs, n: nat, ops: seq<Op>)
    requires Plain(g, s, n) && InsideRun(Contents(g, s, n), ops)
    ensures var (s', answers) := Run(g, s, n, ops);
            && Plain(g, s', n) && Untouched(g, s, s', n)
            && (Contents(g, s', n), answers) == ModelRun(Contents(g, s, n), ops)
    decreases |ops|
  {
    if ops != [] {
      var s1, a := StepRefines(g, s, n, ops[0]);
      ContentsLaw(g, s1, n, ops[1..]);
      UntouchedThen(g, s, s1, Run(g, s1, n, ops[1..]).0, n);
    }
  }
}
