/** An open file as a cursor over a sequence of bytes: what reads, writes, seeks and truncations do through a handle. */
module Cursors {
  import opened Bytes
  import opened BlockCache
  import opened Inodes
  import opened Dentries
  import opened FsModel
  import opened FileData
  import opened Directory
  import opened FsRuns
  import opened FileLife
  import opened Wrappers
  import FileRuns

  /** The bytes of the file, the position, and the size that the handle remembers for seeking from the end. */
  datatype Cursor = Cursor(bytes: seq<Byte>, pos: nat, size: nat)

  datatype Move =
    | Put(data: seq<Byte>, now: Word)
    | Get(len: nat, buffer: Block)
    | Jump(offset: int, whence: Whence)
    | Resize(size: Word, now: Word)

  function CallOf(fd: int, m: Move): Call {
    match m
    case Put(data, now) => WriteFile(fd, data, now)
    case Get(len, buffer) => ReadFile(fd, len, buffer)
    case Jump(offset, whence) => Seek(fd, offset, whence)
    case Resize(size, now) => FsRuns.Truncate(fd, size, now)
  }

  /** Writes start inside the file or at its end, and truncation makes it no longer. */
  predicate Fits(c: Cursor, m: Move) {
    match m
    case Put(_, _) => c.pos <= |c.bytes|
    case Resize(size, _) => size <= |c.bytes|
    case _ => true
  }

  /** How far a move carries the cursor. */
  function Carried(c: Cursor, m: Move): nat {
    match m
    case Put(data, _) => if c.pos <= MAX_SIZE then FileRuns.Min(|data|, MAX_SIZE - c.pos) else 0
    case Get(len, _) => if c.pos < |c.bytes| then FileRuns.Min(len, |c.bytes| - c.pos) else 0
    case _ => 0
  }

  /** Where a seek leads: the sum, or zero for a negative one, as long as it stays below 2^31. */
  function Target(c: Cursor, offset: int, whence: Whence): int {
    match whence case FromStart => offset case FromHere => c.pos + offset case FromEnd => c.size + offset
  }

  ghost predicate Moved(c: Cursor, m: Move, c': Cursor)
    requires Fits(c, m)
  {
    match m
    case Put(data, _) =>
      && Carried(c, m) <= |data| && c'.bytes == FileRuns.Overwritten(c.bytes, c.pos, data[..Carried(c, m)])
      && c'.pos == c.pos + Carried(c, m) && c'.size == (if c'.pos > |c.bytes| then c'.pos else c.size)
    case Get(_, _) => c' == c.(pos := c.pos + Carried(c, m))
    case Jump(offset, whence) =>
      && c' == c.(pos := c'.pos)
      && (-0x8000_0000 <= offset < 0x8000_0000 && Target(c, offset, whence) < 0x8000_0000 ==>
            c'.pos == AtLeastZero(Target(c, offset, whence)))
    case Resize(size, _) => c' == Cursor(c.bytes[..size], c.pos, size)
  }

  /** Handle fd is open for reading and writing on a dense file with space for all it could still take. */
  ghost predicate Ready(g: Geometry, s: System, fd: nat) {
    && Sane(g, s) && ValidFd(s, fd) && s.files[fd].flags.read && s.files[fd].flags.write
    && FileRuns.Plain(g, s.fs, s.files[fd].inode)
  }

  ghost function CursorOf(g: Geometry, s: System, fd: nat): Cursor
    requires Ready(g, s, fd)
  {
    Cursor(Contents(g, s.fs, s.files[fd].inode), s.files[fd].position, s.files[fd].size)
  }

  /** The handle stands for this cursor. */
  ghost predicate At(g: Geometry, s: System, fd: nat, c: Cursor) { Ready(g, s, fd) && CursorOf(g, s, fd) == c }

  /** The move through the handle does to the cursor what it should, and nothing to other handles and files. */
  ghost predicate Follows(g: Geometry, s: System, fd: nat, m: Move, s': System)
    requires Ready(g, s, fd) && Fits(CursorOf(g, s, fd), m)
  {
    && Ready(g, s', fd) && s'.files == s.files[fd := s'.files[fd]] && s'.files[fd].inode == s.files[fd].inode
    && Untouched(g, s.fs, s'.fs, s.files[fd].inode) && Moved(CursorOf(g, s, fd), m, CursorOf(g, s', fd))
  }

  /** What a write does to the file and to the handle. */
  lemma PutIs(g: Geometry, s: System, fd: nat, data: seq<Byte>, now: Word) returns (fs': Fs, end: nat)
    requires Ready(g, s, fd) && Fits(CursorOf(g, s, fd), Put(data, now))
    ensures var h := s.files[fd];
            && end == h.position + Carried(CursorOf(g, s, fd), Put(data, now))
            && After(g, s, WriteFile(fd, data, now)) == System(fs', s.files[fd := h.(position := end,
                 size := if end > s.fs.inodes[h.inode].size then end else h.size)])
            && FileRuns.Refined(g, s.fs, h.inode, FileRuns.Write(h.position, data, now), fs',
                                FileRuns.Count(end - h.position))
  {
    var h := s.files[fd];
    var a;
    fs', a := FileRuns.StepRefines(g, s.fs, h.inode, FileRuns.Write(h.position, data, now));
    end := h.position + a.n;
  }

  lemma PutFollows(g: Geometry, s: System, fd: nat, data: seq<Byte>, now: Word, s': System)
    requires Ready(g, s, fd) && Fits(CursorOf(g, s, fd), Put(data, now)) && s' == After(g, s, WriteFile(fd, data, now))
    ensures Follows(g, s, fd, Put(data, now), s')
  {
    var fs', end := PutIs(g, s, fd, data, now);
    AfterSane(g, s, WriteFile(fd, data, now));
  }

  /** A read answers with the bytes that the cursor passes over. */
  lemma GetAnswers(g: Geometry, s: System, fd: nat, len: nat, buffer: Block, c: Cursor, bytes: seq<Byte>)
    requires At(g, s, fd, c) && bytes == ReadBytes(s.fs, s.files[fd].inode, s.files[fd].position, len, buffer)
    ensures |bytes| == Carried(c, Get(len, buffer)) && (bytes == [] || bytes == c.bytes[c.pos..c.pos + |bytes|])
  {
    ReadRefines(g, s.fs, s.files[fd].inode, s.files[fd].position, len, buffer);
    SliceOf(c, len, buffer, bytes);
  }

  lemma SliceOf(c: Cursor, len: nat, buffer: Block, bytes: seq<Byte>)
    requires if c.pos >= |c.bytes| then bytes == []
             else bytes == c.bytes[c.pos..if c.pos + len < |c.bytes| then c.pos + len else |c.bytes|]
    ensures |bytes| == Carried(c, Get(len, buffer)) && (bytes == [] || bytes == c.bytes[c.pos..c.pos + |bytes|])
  {
  }

  lemma GetIs(g: Geometry, s: System, fd: nat, len: nat, buffer: Block, c: Cursor, s': System)
    requires At(g, s, fd, c) && s' == After(g, s, ReadFile(fd, len, buffer))
    ensures s' == WithFile(s, fd, s.files[fd].(position := s'.files[fd].position))
    ensures s'.files[fd].position == c.pos + Carried(c, Get(len, buffer))
  {
    var bytes := ReadBytes(s.fs, s.files[fd].inode, s.files[fd].position, len, buffer);
    GetAnswers(g, s, fd, len, buffer, c, bytes);
    SmallFile(g, s.fs, s.files[fd].inode);
  }

  lemma GetFollows(g: Geometry, s: System, fd: nat, len: nat, buffer: Block, s': System)
    requires Ready(g, s, fd) && s' == After(g, s, ReadFile(fd, len, buffer))
    ensures Follows(g, s, fd, Get(len, buffer), s')
  {
    GetIs(g, s, fd, len, buffer, CursorOf(g, s, fd), s');
    AfterSane(g, s, ReadFile(fd, len, buffer));
  }

  lemma SmallFile(g: Geometry, fs: Fs, n: nat)
    requires Shaped(g, fs) && n < g.inodes && Dense(g, fs, n)
    ensures fs.inodes[n].size <= MAX_SIZE
  {
  }

  lemma JumpFollows(g: Geometry, s: System, fd: nat, offset: int, whence: Whence, s': System)
    requires Ready(g, s, fd) && s' == After(g, s, Seek(fd, offset, whence))
    ensures Follows(g, s, fd, Jump(offset, whence), s')
  {
    var h := s.files[fd];
    if -0x8000_0000 <= offset < 0x8000_0000 { SeekMeans(Base(h, whence), offset); }
    AfterSane(g, s, Seek(fd, offset, whence));
  }

  lemma ResizeFollows(g: Geometry, s: System, fd: nat, size: Word, now: Word, s': System)
    requires Ready(g, s, fd) && Fits(CursorOf(g, s, fd), Resize(size, now))
    requires s' == After(g, s, FsRuns.Truncate(fd, size, now))
    ensures Follows(g, s, fd, Resize(size, now), s')
  {
    var h := s.files[fd];
    var fs', a := FileRuns.StepRefines(g, s.fs, h.inode, FileRuns.Truncate(size, now));
    AfterSane(g, s, FsRuns.Truncate(fd, size, now));
  }

  lemma MoveFollows(g: Geometry, s: System, fd: nat, m: Move, s': System)
    requires Ready(g, s, fd) && Fits(CursorOf(g, s, fd), m) && s' == After(g, s, CallOf(fd, m))
    ensures Follows(g, s, fd, m, s')
  {
    match m
    case Put(data, now) => PutFollows(g, s, fd, data, now, s');
    case Get(len, buffer) => GetFollows(g, s, fd, len, buffer, s');
    case Jump(offset, whence) => JumpFollows(g, s, fd, offset, whence, s');
    case Resize(size, now) => ResizeFollows(g, s, fd, size, now, s');
  }

  // ---- Sequences of moves ----

  function Calls(fd: int, ms: seq<Move>): seq<Call> {
    if ms == [] then [] else [CallOf(fd, ms[0])] + Calls(fd, ms[1..])
  }

  /** Every move fits when its turn comes. */
  ghost predicate AllFit(g: Geometry, s: System, fd: nat, ms: seq<Move>)
    decreases |ms|
  {
    && Ready(g, s, fd)
    && (ms != [] ==> Fits(CursorOf(g, s, fd), ms[0]) && AllFit(g, After(g, s, CallOf(fd, ms[0])), fd, ms[1..]))
  }

  /** The cursors that a sequence of moves goes through. */
  ghost predicate Path(cs: seq<Cursor>, ms: seq<Move>) {
    |cs| == |ms| + 1 && forall i :: 0 <= i < |ms| ==> Fits(cs[i], ms[i]) && Moved(cs[i], ms[i], cs[i + 1])
  }

  lemma PathStep(c: Cursor, m: Move, cs: seq<Cursor>, ms: seq<Move>)
    requires ms != [] && m == ms[0] && Path(cs, ms[1..]) && Fits(c, m) && Moved(c, m, cs[0])
    ensures Path([c] + cs, ms)
  {
    var all := [c] + cs;
    forall i | 0 <= i < |ms| ensures Fits(all[i], ms[i]) && Moved(all[i], ms[i], all[i + 1]) {
      if i > 0 { assert all[i] == cs[i - 1] && all[i + 1] == cs[i] && ms[i] == ms[1..][i - 1]; }
    }
  }

  /** The handle stands for c, all the moves fit, and they lead to s'. */
  ghost predicate Running(g: Geometry, s: System, fd: nat, ms: seq<Move>, c: Cursor, s': System) {
    At(g, s, fd, c) && AllFit(g, s, fd, ms) && s' == FsRuns.Run(g, s, Calls(fd, ms))
  }

  /** The cursors go from c by these moves to the one that the handle stands for in s'. */
  ghost predicate Traced(g: Geometry, fd: nat, ms: seq<Move>, c: Cursor, s': System, cs: seq<Cursor>) {
    Path(cs, ms) && cs[0] == c && At(g, s', fd, cs[|ms|])
  }

  lemma MoveStep(g: Geometry, s: System, fd: nat, ms: seq<Move>, c: Cursor, s': System) returns (s1: System, c1: Cursor)
    requires Running(g, s, fd, ms, c, s') && ms != []
    ensures Running(g, s1, fd, ms[1..], c1, s') && Fits(c, ms[0]) && Moved(c, ms[0], c1)
  {
    s1 := After(g, s, CallOf(fd, ms[0]));
    MoveFollows(g, s, fd, ms[0], s1);
    c1 := CursorOf(g, s1, fd);
    AfterSane(g, s, CallOf(fd, ms[0]));
    assert Calls(fd, ms)[1..] == Calls(fd, ms[1..]);
  }

  lemma TraceStep(g: Geometry, fd: nat, ms: seq<Move>, c: Cursor, c1: Cursor, s': System, rest: seq<Cursor>)
    requires ms != [] && Traced(g, fd, ms[1..], c1, s', rest) && Fits(c, ms[0]) && Moved(c, ms[0], c1)
    ensures Traced(g, fd, ms, c, s', [c] + rest)
  {
    PathStep(c, ms[0], rest, ms);
  }

  /** Any sequence of reads, writes, seeks and truncations through one handle takes its cursor along a path of moves. */
  lemma {:induction false} CursorRun(g: Geometry, s: System, fd: nat, ms: seq<Move>, c: Cursor, s': System)
    returns (cs: seq<Cursor>)
    requires Running(g, s, fd, ms, c, s')
    ensures Traced(g, fd, ms, c, s', cs)
    decreases |ms|
  {
    if ms == [] {
      cs := [c];
    } else {
      var s1, c1 := MoveStep(g, s, fd, ms, c, s');
      var rest := CursorRun(g, s1, fd, ms[1..], c1, s');
      TraceStep(g, fd, ms, c, c1, s', rest);
      cs := [c] + rest;
    }
  }

  // ---- Appending ----

  lemma OpenedCursor(g: Geometry, s: System, path: Name, flags: Flags, now: Word, buffer: Block, n: Word, s1: System)
    returns (c: Cursor)
    requires Sane(g, s) && Find(s.fs, ROOT, FileName(path)) == Some(n) && FreeHandle(s.files) < |s.files|
    requires n < g.inodes && FileRuns.Plain(g, s.fs, n) && flags.read && flags.write && !flags.trunc
    requires s1 == After(g, s, Open(path, flags, now, buffer))
    ensures At(g, s1, FreeHandle(s.files), c) && s1.files[FreeHandle(s.files)].inode == n
    ensures c.bytes == Contents(g, s.fs, n) && c.pos == (if flags.append then |c.bytes| else 0) && c.size == |c.bytes|
  {
    OpenFound(g, s, path, flags, now, buffer, n, s1);
    c := CursorOf(g, s1, FreeHandle(s.files));
  }

  lemma PutAtEnd(c: Cursor, data: seq<Byte>, now: Word, c': Cursor)
    requires c.pos == |c.bytes| && |c.bytes| + |data| <= MAX_SIZE && Moved(c, Put(data, now), c')
    ensures c'.bytes == c.bytes + data
  {
    assert data[..|data|] == data;
  }

  /** A write through a handle opened for appending puts its data behind what the file held. */
  lemma AppendWrites(g: Geometry, s: System, path: Name, flags: Flags, now: Word, buffer: Block, n: Word,
      data: seq<Byte>, s1: System) returns (c: Cursor, c': Cursor)
    requires Sane(g, s) && Find(s.fs, ROOT, FileName(path)) == Some(n) && FreeHandle(s.files) < |s.files|
    requires n < g.inodes && FileRuns.Plain(g, s.fs, n) && flags.read && flags.write && !flags.trunc && flags.append
    requires |Contents(g, s.fs, n)| + |data| <= MAX_SIZE && s1 == After(g, s, Open(path, flags, now, buffer))
    ensures At(g, s1, FreeHandle(s.files), c) && c.bytes == Contents(g, s.fs, n)
    ensures At(g, After(g, s1, WriteFile(FreeHandle(s.files), data, now)), FreeHandle(s.files), c')
    ensures c'.bytes == c.bytes + data
  {
    var fd := FreeHandle(s.files);
    c := OpenedCursor(g, s, path, flags, now, buffer, n, s1);
    c' := PutMoves(g, s1, fd, data, now, c);
    PutAtEnd(c, data, now, c');
  }

  lemma PutMoves(g: Geometry, s: System, fd: nat, data: seq<Byte>, now: Word, c: Cursor) returns (c': Cursor)
    requires At(g, s, fd, c) && Fits(c, Put(data, now))
    ensures At(g, After(g, s, WriteFile(fd, data, now)), fd, c') && Moved(c, Put(data, now), c')
  {
    var s' := After(g, s, WriteFile(fd, data, now));
    PutFollows(g, s, fd, data, now, s');
    c' := CursorOf(g, s', fd);
  }
}
