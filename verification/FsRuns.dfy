/** Every sequence of file system calls in one mount session, from a fresh format on: no block is ever shared. */
module FsRuns {
  import opened Bytes
  import opened BlockCache
  import opened Bitmap
  import opened Inodes
  import opened Dentries
  import opened FsModel
  import opened FileData
  import opened Directory
  import opened Wrappers

  const MAX_OPEN_FILES := 8

  datatype Flags = Flags(read: bool, write: bool, create: bool, trunc: bool, append: bool)

  datatype Handle = Handle(inUse: bool, inode: Word, flags: Flags, position: Word, size: Word)

  datatype System = System(fs: Fs, files: seq<Handle>)

  datatype Whence = FromStart | FromHere | FromEnd

  /** The buffers that a call leaves uninitialised, and the clock, come with the call. */
  datatype Call =
    | Open(path: Name, flags: Flags, now: Word, buffer: Block)
    | Close(fd: int)
    | ReadFile(fd: int, len: nat, buffer: Block)
    | WriteFile(fd: int, data: seq<Byte>, now: Word)
    | Seek(fd: int, offset: int, whence: Whence)
    | Truncate(fd: int, size: Word, now: Word)
    | Remove(path: Name, buffer: Block)
    | Rename(path: Name, target: Name, buffer: Block)
    | MakeDir(path: Name, now: Word, buffer: Block)
    | RemoveDir(path: Name, buffer: Block)

  /** A leading slash does not count. */
  function FileName(path: Name): Name {
    if path != [] && path[0] == 0x2F then (assert forall x :: x in path[1..] ==> x in path; path[1..]) else path
  }

  predicate ValidFd(s: System, fd: int) { 0 <= fd < |s.files| && s.files[fd].inUse }

  function FreeHandle(files: seq<Handle>): (i: nat)
    ensures i <= |files| && (i < |files| ==> !files[i].inUse)
  {
    if files == [] || !files[0].inUse then 0 else 1 + FreeHandle(files[1..])
  }

  ghost predicate Sane(g: Geometry, s: System) {
    && Good(g, s.fs) && |s.files| == MAX_OPEN_FILES
    && forall i :: 0 <= i < MAX_OPEN_FILES && s.files[i].inUse ==> 0 < s.files[i].inode < g.inodes
  }

  function WithFile(s: System, i: nat, h: Handle): System
    requires i < |s.files|
  {
    s.(files := s.files[i := h])
  }

  // ---- The calls ----

  /** fs_open up to the file handle: the inode, if the name is there or can be created. */
  ghost function Located(g: Geometry, fs: Fs, name: Name, create: bool, now: Word, buffer: Block): (Fs, nat)
    requires Shaped(g, fs)
  {
    match Find(fs, ROOT, name)
    case Some(n) => (fs, n)
    case None =>
      if create then var (fs', n, linked) := Created(g, fs, name, REGULAR, now, buffer); (fs', n) else (fs, NO_BLOCK)
  }

  ghost function Opened(g: Geometry, s: System, path: Name, flags: Flags, now: Word, buffer: Block): System
    requires Sane(g, s)
  {
    var fd := FreeHandle(s.files);
    if fd == |s.files| then s
    else
      var (fs1, n) := Located(g, s.fs, FileName(path), flags.create, now, buffer);
      LocatedGood(g, s.fs, FileName(path), flags.create, now, buffer);
      if n == NO_BLOCK then s.(fs := fs1)
      else
        var fs2 := if flags.trunc then Emptied(g, fs1, n) else fs1;
        var size := if |fs2.inodes| > n then fs2.inodes[n].size else 0;
        WithFile(s.(fs := fs2), fd, Handle(true, n, flags, if flags.append then size else 0, size))
  }

  lemma LocatedGood(g: Geometry, fs: Fs, name: Name, create: bool, now: Word, buffer: Block)
    requires Good(g, fs)
    ensures var (fs', n) := Located(g, fs, name, create, now, buffer);
            Good(g, fs') && (n == NO_BLOCK || (0 < n < g.inodes && fs'.inodes[n].kind != FREE))
  {
    match Find(fs, ROOT, name)
    case Some(n) => FoundInode(g, fs, name);
    case None => if create { CreateUpdatesMap(g, fs, name, REGULAR, now, buffer); }
  }

  /** A 32-bit sum read as a signed number; a negative position becomes zero. */
  function SeekTo(base: Word, offset: int): Word {
    var p := (base + offset) % 0x1_0000_0000;
    if p < 0x8000_0000 then p else 0
  }

  /** What an offset is counted from. */
  function Base(h: Handle, whence: Whence): Word {
    match whence case FromStart => 0 case FromHere => h.position case FromEnd => h.size
  }

  function Sought(h: Handle, offset: int, whence: Whence): Handle { h.(position := SeekTo(Base(h, whence), offset)) }

  function AtLeastZero(n: int): nat { if n < 0 then 0 else n }

  /** For a 32-bit offset the position is the sum, or zero if that is negative, exactly when the sum is below 2^31. */
  lemma SeekMeans(base: Word, offset: int)
    requires -0x8000_0000 <= offset < 0x8000_0000
    ensures SeekTo(base, offset) == AtLeastZero(base + offset) <==> base + offset < 0x8000_0000
  {
  }

  /** Seeking back by as much as one has sought forward returns to the same position. */
  lemma SeekReturns(h: Handle, offset: int)
    requires 0 <= offset && h.position + offset < 0x8000_0000
    ensures Sought(Sought(h, offset, FromHere), -offset, FromHere) == h
  {
  }

  function Advanced(h: Handle, n: nat): Handle { h.(position := (h.position + n) % 0x1_0000_0000) }

  ghost function WroteFile(g: Geometry, s: System, fd: nat, data: seq<Byte>, now: Word): System
    requires Sane(g, s) && ValidFd(s, fd)
  {
    var h := s.files[fd];
    var (fs, end) := Written(g, s.fs, h.inode, h.position, data, now);
    WriteFromShape(g, s.fs, h.inode, h.position, data);
    var size := if end > s.fs.inodes[h.inode].size then end else h.size;
    WithFile(s.(fs := fs), fd, h.(position := end, size := size))
  }

  ghost function UnlinkedName(g: Geometry, fs: Fs, name: Name, directory: bool, buffer: Block): Fs
    requires Good(g, fs)
  {
    match Find(fs, ROOT, name)
    case None => fs
    case Some(n) =>
      FoundInode(g, fs, name);
      if directory && (fs.inodes[n].kind != DIRECTORY || fs.inodes[n].size > 0) then fs else Unlinked(g, fs, n, buffer)
  }

  /** The name is there and, for fs_rmdir, is that of an empty directory. */
  predicate Removable(fs: Fs, name: Name, directory: bool)
    requires |fs.inodes| > 0
  {
    match Find(fs, ROOT, name)
    case None => false
    case Some(n) => !directory || (n < |fs.inodes| && fs.inodes[n].kind == DIRECTORY && fs.inodes[n].size == 0)
  }

  /** fs_rename */
  function Renamed(fs: Fs, name: Name, target: Name, buffer: Block): Fs
    requires |fs.inodes| > 0
  {
    if Find(fs, ROOT, name) == None || Find(fs, ROOT, target) != None then fs
    else EditFrom(fs, fs.inodes[ROOT], 0, Find(fs, ROOT, name).value, Some(target), buffer).0
  }

  /** fs_mkdir; without a place for the entry the inode is freed and the root is not saved. */
  ghost function MadeDir(g: Geometry, fs: Fs, name: Name, now: Word, buffer: Block): Fs
    requires Shaped(g, fs)
  {
    FewInodes(g);
    var n := FreeInode(fs, 0);
    if Find(fs, ROOT, name) != None || n == NO_BLOCK then fs
    else
      var (fs1, n', linked) := Created(g, fs, name, DIRECTORY, now, buffer);
      if linked then fs1 else DirUndone(g, fs, n, now)
  }

  ghost function DirUndone(g: Geometry, fs: Fs, n: nat, now: Word): Fs
    requires Shaped(g, fs) && n < g.inodes
  {
    var fs1 := WithNode(fs, n, Fresh(DIRECTORY, now));
    FsModel.Removed(g, WithNode(RootGrown(g, fs1), ROOT, fs1.inodes[ROOT]), n)
  }

  ghost function After(g: Geometry, s: System, c: Call): System
    requires Sane(g, s)
  {
    match c
    case Open(path, flags, now, buffer) => Opened(g, s, path, flags, now, buffer)
    case Close(fd) => if ValidFd(s, fd) then WithFile(s, fd, s.files[fd].(inUse := false)) else s
    case ReadFile(fd, len, buffer) =>
      if !ValidFd(s, fd) || !s.files[fd].flags.read then s
      else
        var h := s.files[fd];
        WithFile(s, fd, Advanced(h, |ReadBytes(s.fs, h.inode, h.position, len, buffer)|))
    case WriteFile(fd, data, now) =>
      if !ValidFd(s, fd) || !s.files[fd].flags.write then s else WroteFile(g, s, fd, data, now)
    case Seek(fd, offset, whence) => if ValidFd(s, fd) then WithFile(s, fd, Sought(s.files[fd], offset, whence)) else s
    case Truncate(fd, size, now) =>
      if !ValidFd(s, fd) then s
      else WithFile(s.(fs := Truncated(g, s.fs, s.files[fd].inode, size, now)), fd, s.files[fd].(size := size))
    case Remove(path, buffer) => s.(fs := UnlinkedName(g, s.fs, FileName(path), false, buffer))
    case Rename(path, target, buffer) => s.(fs := Renamed(s.fs, FileName(path), FileName(target), buffer))
    case MakeDir(path, now, buffer) => s.(fs := MadeDir(g, s.fs, FileName(path), now, buffer))
    case RemoveDir(path, buffer) => s.(fs := UnlinkedName(g, s.fs, FileName(path), true, buffer))
  }

  // ---- What each call keeps ----

  /** Work on a file that is open or named, which keeps its type, is no concern of the directory's. */
  lemma FileWorkGood(g: Geometry, fs: Fs, fs': Fs, n: nat)
    requires Good(g, fs) && Inv(g, fs') && 0 < n < g.inodes && Untouched(g, fs, fs', n)
    requires fs'.inodes[n].kind == fs.inodes[n].kind
    ensures Good(g, fs') && RootEntries(g, fs') == RootEntries(g, fs)
  {
    UntouchedRoot(g, fs, fs', n);
    if fs.inodes[n].kind == FREE {
      forall i | 0 <= i < |RootEntries(g, fs)| ensures RootEntries(g, fs)[i].inode != n {
        assert LiveEntry(g, fs, RootEntries(g, fs)[i]);
      }
    }
  }

  lemma EmptiedGood(g: Geometry, fs: Fs, n: nat)
    requires Good(g, fs) && 0 < n < g.inodes
    ensures Good(g, Emptied(g, fs, n)) && RootEntries(g, Emptied(g, fs, n)) == RootEntries(g, fs)
  {
    EmptiedKeeps(g, fs, n);
    ReleaseKeeps(g, fs, n, 0);
    FileWorkGood(g, fs, Emptied(g, fs, n), n);
  }

  lemma TruncatedGood(g: Geometry, fs: Fs, n: nat, size: Word, now: Word)
    requires Good(g, fs) && 0 < n < g.inodes
    ensures Good(g, Truncated(g, fs, n, size, now))
    ensures RootEntries(g, Truncated(g, fs, n, size, now)) == RootEntries(g, fs)
  {
    TruncatedKeeps(g, fs, n, size, now);
    ReleaseKeeps(g, fs, n, PointersFor(size));
    FileWorkGood(g, fs, Truncated(g, fs, n, size, now), n);
  }

  lemma WrittenGood(g: Geometry, fs: Fs, n: nat, pos: Word, data: seq<Byte>, now: Word)
    requires Good(g, fs) && 0 < n < g.inodes
    ensures Good(g, Written(g, fs, n, pos, data, now).0)
    ensures RootEntries(g, Written(g, fs, n, pos, data, now).0) == RootEntries(g, fs)
  {
    WrittenKeeps(g, fs, n, pos, data, now);
    WriteFromKeeps(g, fs, n, pos, data);
    FileWorkGood(g, fs, Written(g, fs, n, pos, data, now).0, n);
  }

  lemma UnlinkedNameGood(g: Geometry, fs: Fs, name: Name, directory: bool, buffer: Block)
    requires Good(g, fs)
    ensures Good(g, UnlinkedName(g, fs, name, directory, buffer))
  {
    if Find(fs, ROOT, name).Some? { RemoveUpdatesMap(g, fs, name, buffer); }
  }

  lemma RenamedGood(g: Geometry, fs: Fs, name: Name, target: Name, buffer: Block)
    requires Good(g, fs)
    ensures Good(g, Renamed(fs, name, target, buffer))
  {
    if Find(fs, ROOT, name).Some? && Find(fs, ROOT, target) == None {
      var _ := RenameUpdatesMap(g, fs, name, target, buffer);
    }
  }

  lemma DirUndoneGood(g: Geometry, fs: Fs, n: nat, now: Word)
    requires Good(g, fs) && n < g.inodes && fs.inodes[n].kind == FREE
    ensures Good(g, DirUndone(g, fs, n, now)) && RootEntries(g, DirUndone(g, fs, n, now)) == RootEntries(g, fs)
  {
    FreshKeeps(g, fs, n, DIRECTORY, now);
    var fs1 := WithNode(fs, n, Fresh(DIRECTORY, now));
    RootGrownKeeps(g, fs1);
    var fs2 := RootGrown(g, fs1);
    var fs3 := RootRestored(g, fs1);
    FileData.RemovedKeeps(g, fs3, n);
    UntouchedRoot(g, fs3, FsModel.Removed(g, fs3, n), n);
  }

  /** Growing the root and then not saving it leaves the directory as it was. */
  lemma RootRestored(g: Geometry, fs: Fs) returns (fs': Fs)
    requires Good(g, fs)
    ensures fs' == WithNode(RootGrown(g, fs), ROOT, fs.inodes[ROOT])
    ensures Good(g, fs') && RootEntries(g, fs') == RootEntries(g, fs) && fs'.inodes == fs.inodes
  {
    fs' := WithNode(RootGrown(g, fs), ROOT, fs.inodes[ROOT]);
    RootGrownKeeps(g, fs);
    NodeKeeps(g, RootGrown(g, fs), ROOT, fs.inodes[ROOT]);
  }

  lemma MadeDirGood(g: Geometry, fs: Fs, name: Name, now: Word, buffer: Block)
    requires Good(g, fs)
    ensures Good(g, MadeDir(g, fs, name, now, buffer))
  {
    FewInodes(g);
    var n := FreeInode(fs, 0);
    if Find(fs, ROOT, name) == None && n != NO_BLOCK {
      CreateUpdatesMap(g, fs, name, DIRECTORY, now, buffer);
      DirUndoneGood(g, fs, n, now);
    }
  }

  lemma OpenedSane(g: Geometry, s: System, path: Name, flags: Flags, now: Word, buffer: Block)
    requires Sane(g, s)
    ensures Sane(g, Opened(g, s, path, flags, now, buffer))
  {
    LocatedGood(g, s.fs, FileName(path), flags.create, now, buffer);
    var (fs1, n) := Located(g, s.fs, FileName(path), flags.create, now, buffer);
    if n != NO_BLOCK { EmptiedGood(g, fs1, n); }
  }

  lemma AfterSane(g: Geometry, s: System, c: Call)
    requires Sane(g, s)
    ensures Sane(g, After(g, s, c))
  {
    match c
    case Open(path, flags, now, buffer) => OpenedSane(g, s, path, flags, now, buffer);
    case WriteFile(fd, data, now) =>
      if ValidFd(s, fd) { WrittenGood(g, s.fs, s.files[fd].inode, s.files[fd].position, data, now); }
    case Truncate(fd, size, now) => if ValidFd(s, fd) { TruncatedGood(g, s.fs, s.files[fd].inode, size, now); }
    case Remove(path, buffer) => UnlinkedNameGood(g, s.fs, FileName(path), false, buffer);
    case RemoveDir(path, buffer) => UnlinkedNameGood(g, s.fs, FileName(path), true, buffer);
    case Rename(path, target, buffer) => RenamedGood(g, s.fs, FileName(path), FileName(target), buffer);
    case MakeDir(path, now, buffer) => MadeDirGood(g, s.fs, FileName(path), now, buffer);
    case _ =>
  }

  // ---- Whole sessions ----

  ghost function Run(g: Geometry, s: System, calls: seq<Call>): System
    requires Sane(g, s)
    decreases |calls|
  {
    if calls == [] then s else AfterSane(g, s, calls[0]); Run(g, After(g, s, calls[0]), calls[1..])
  }

  /**
   * After every sequence of calls, failed ones and ones out of space included: the blocks that inodes point to
   * are pairwise different, lie in the data area and are marked used, and the free counter is the number of clear
   * data bits.
   */
  lemma {:induction false} NoBlockShared(g: Geometry, s: System, calls: seq<Call>)
    requires Sane(g, s)
    ensures var fs := Run(g, s, calls).fs;
            && Sane(g, Run(g, s, calls)) && Owned(g, fs) && Unshared(g, fs) && fs.free == |Unused(g, fs.used)|
    decreases |calls|
  {
    if calls != [] {
      AfterSane(g, s, calls[0]);
      NoBlockShared(g, After(g, s, calls[0]), calls[1..]);
    }
  }

  // ---- A fresh format ----

  /**
   * What fs_format leaves on a device erased to zeros or to ones. Only the first block of the inode table is written,
   * so the inodes in the other blocks are as the erasure left them.
   */
  ghost predicate Formatted(g: Geometry, fs: Fs) {
    && Shaped(g, fs) && fs.inodes[ROOT].kind == DIRECTORY
    && (forall n, k :: 0 <= n < g.inodes && 0 <= k < POINTERS ==>
          fs.inodes[n].blocks[k] == 0 || (n >= PER_BLOCK && fs.inodes[n].blocks[k] == NO_BLOCK))
    && (forall b :: b in fs.used <==> 0 <= b < g.first) && fs.free == g.total - g.first
  }

  lemma {:induction false} IntervalSize(a: nat, b: nat, s: set<nat>)
    requires a <= b && forall x :: x in s <==> a <= x < b
    ensures |s| == b - a
    decreases b - a
  {
    if a < b {
      IntervalSize(a, b - 1, s - {b - 1});
      assert s == (s - {b - 1}) + {b - 1};
    } else {
      assert s == {};
    }
  }

  /** A session starts in a sane state. */
  lemma FormatSane(g: Geometry, s: System)
    requires Formatted(g, s.fs) && |s.files| == MAX_OPEN_FILES
    requires forall i :: 0 <= i < MAX_OPEN_FILES ==> !s.files[i].inUse
    ensures Sane(g, s) && RootEntries(g, s.fs) == []
  {
    IntervalSize(g.first, g.total, Unused(g, s.fs.used));
  }
}
