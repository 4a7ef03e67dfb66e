/** What opening does to a file and to its handle, and which calls leave a file as it is, over whole sessions. */
module FileLife {
  import opened Bytes
  import opened BlockCache
  import opened Inodes
  import opened Dentries
  import opened FsModel
  import opened FileData
  import opened Directory
  import opened FsRuns
  import opened Wrappers

  /** Inode m and the blocks it points to are as before. */
  ghost predicate SameFile(g: Geometry, fs: Fs, fs': Fs, m: nat) {
    && Shaped(g, fs) && Shaped(g, fs') && m < g.inodes && fs'.inodes[m] == fs.inodes[m]
    && forall k :: 0 <= k < POINTERS && Real(g, fs.inodes[m].blocks[k]) ==>
         fs'.blocks[fs.inodes[m].blocks[k]] == fs.blocks[fs.inodes[m].blocks[k]]
  }

  lemma SameTwice(g: Geometry, fs: Fs, fs1: Fs, fs2: Fs, m: nat)
    requires SameFile(g, fs, fs1, m) && SameFile(g, fs1, fs2, m)
    ensures SameFile(g, fs, fs2, m)
  {
  }

  lemma SameContents(g: Geometry, fs: Fs, fs': Fs, m: nat)
    requires SameFile(g, fs, fs', m) && Dense(g, fs, m)
    ensures Dense(g, fs', m) && Contents(g, fs', m) == Contents(g, fs, m)
  {
    var x := fs.inodes[m];
    forall q | 0 <= q < x.size ensures Contents(g, fs', m)[q] == Contents(g, fs, m)[q] { SolidAt(g, x, x.size, q); }
  }

  lemma UntouchedSame(g: Geometry, fs: Fs, fs': Fs, n: nat, m: nat)
    requires Shaped(g, fs) && Shaped(g, fs') && Untouched(g, fs, fs', n) && m < g.inodes && m != n
    ensures SameFile(g, fs, fs', m)
  {
  }

  lemma OthersSame(g: Geometry, fs: Fs, fs': Fs, n: nat, m: nat)
    requires Shaped(g, fs) && Shaped(g, fs') && OthersUntouched(g, fs, fs', n) && 0 < m < g.inodes && m != n
    ensures SameFile(g, fs, fs', m)
  {
  }

  // ---- Opening ----

  /** The handle that an open file starts with. */
  function Started(n: Word, flags: Flags, size: Word): Handle {
    Handle(true, n, flags, if flags.append then size else 0, size)
  }

  ghost predicate IsEmpty(g: Geometry, fs: Fs, n: nat) {
    Shaped(g, fs) && n < g.inodes && fs.inodes[n].size == 0 && Dense(g, fs, n) && Contents(g, fs, n) == []
  }

  lemma EmptyIs(g: Geometry, fs: Fs, n: nat)
    requires Shaped(g, fs) && n < g.inodes && fs.inodes[n].size == 0
    ensures IsEmpty(g, fs, n)
  {
  }

  /**
   * Opening a name that is there: without truncation no byte of the device changes, with it that file is empty and no
   * other is touched. The handle is the first free one, on the inode of that name, at the end if appending, else at 0.
   */
  lemma OpenFound(g: Geometry, s: System, path: Name, flags: Flags, now: Word, buffer: Block, n: Word, s': System)
    requires Sane(g, s) && Find(s.fs, ROOT, FileName(path)) == Some(n) && FreeHandle(s.files) < |s.files|
    requires s' == After(g, s, Open(path, flags, now, buffer))
    ensures Sane(g, s') && 0 < n < g.inodes && Find(s'.fs, ROOT, FileName(path)) == Some(n)
    ensures s'.files == s.files[FreeHandle(s.files) := Started(n, flags, s'.fs.inodes[n].size)]
    ensures !flags.trunc ==> s'.fs == s.fs
    ensures flags.trunc ==> IsEmpty(g, s'.fs, n) && Untouched(g, s.fs, s'.fs, n)
  {
    FoundInode(g, s.fs, FileName(path));
    FindInRoot(g, s.fs, FileName(path));
    AfterSane(g, s, Open(path, flags, now, buffer));
    if flags.trunc {
      EmptiedGood(g, s.fs, n);
      EmptiedKeeps(g, s.fs, n);
      FindInRoot(g, s'.fs, FileName(path));
      EmptyIs(g, s'.fs, n);
    }
  }

  /** A file with nothing in it yet: its type, no size, no blocks, and both times from the clock. */
  ghost predicate IsNew(x: Inode, kind: Byte, now: Word) {
    && x.kind == kind && x.size == 0 && x.mtime == now && x.ctime == now
    && forall k :: 0 <= k < POINTERS ==> x.blocks[k] == 0
  }

  lemma FreshIsNew(kind: Byte, now: Word)
    ensures IsNew(Fresh(kind, now), kind, now)
  {
  }

  lemma CreatedFile(g: Geometry, fs: Fs, name: Name, now: Word, buffer: Block, n: nat) returns (fs1: Fs)
    requires Good(g, fs) && Find(fs, ROOT, name) == None && n == FreeInode(fs, 0) && n != NO_BLOCK
    ensures (fs1, n) == Located(g, fs, name, true, now, buffer) && Good(g, fs1) && 0 < n < g.inodes
    ensures fs1.inodes[n] == Fresh(REGULAR, now) && OthersUntouched(g, fs, fs1, n)
    ensures Linkable(g, fs) && |name| < NAME_SIZE ==> Find(fs1, ROOT, name) == Some(n)
    ensures Linkable(g, fs) ==> Dentry(Cut(name), n, REGULAR) in RootEntries(g, fs1)
  {
    FewInodes(g);
    CreateUpdatesMap(g, fs, name, REGULAR, now, buffer);
    fs1 := Created(g, fs, name, REGULAR, now, buffer).0;
  }

  /** Opening a name that is not there with permission to create, and an inode to be had. */
  lemma OpenNew(g: Geometry, s: System, path: Name, flags: Flags, now: Word, buffer: Block, n: Word, s': System)
    requires Sane(g, s) && Find(s.fs, ROOT, FileName(path)) == None && FreeHandle(s.files) < |s.files| && flags.create
    requires n == FreeInode(s.fs, 0) && n != NO_BLOCK && s' == After(g, s, Open(path, flags, now, buffer))
    ensures Sane(g, s') && 0 < n < g.inodes && s'.files == s.files[FreeHandle(s.files) := Started(n, flags, 0)]
    ensures IsNew(s'.fs.inodes[n], REGULAR, now) && IsEmpty(g, s'.fs, n) && OthersUntouched(g, s.fs, s'.fs, n)
    ensures Linkable(g, s.fs) && |FileName(path)| < NAME_SIZE ==> Find(s'.fs, ROOT, FileName(path)) == Some(n)
    ensures Linkable(g, s.fs) ==> Dentry(Cut(FileName(path)), n, REGULAR) in RootEntries(g, s'.fs)
  {
    var fs1 := CreatedFile(g, s.fs, FileName(path), now, buffer, n);
    OpenedOn(g, s, path, flags, now, buffer, n, fs1, s');
    AfterSane(g, s, Open(path, flags, now, buffer));
    FreshIsNew(REGULAR, now);
    EmptyIs(g, fs1, n);
  }

  lemma OpenedOn(g: Geometry, s: System, path: Name, flags: Flags, now: Word, buffer: Block, n: Word, fs1: Fs,
      s': System)
    requires Sane(g, s) && FreeHandle(s.files) < |s.files| && s' == After(g, s, Open(path, flags, now, buffer))
    requires (fs1, n) == Located(g, s.fs, FileName(path), flags.create, now, buffer) && n != NO_BLOCK
    requires n < |fs1.inodes| && fs1.inodes[n].size == 0
    ensures s'.fs == fs1 && s'.files == s.files[FreeHandle(s.files) := Started(n, flags, 0)]
  {
    assert Emptied(g, fs1, n) == fs1;
  }

  /** Opening fails and changes nothing: no free handle, or no such name and nothing created. */
  lemma OpenFails(g: Geometry, s: System, path: Name, flags: Flags, now: Word, buffer: Block)
    requires Sane(g, s)
    requires FreeHandle(s.files) == |s.files| || (Find(s.fs, ROOT, FileName(path)) == None
      && (!flags.create || FreeInode(s.fs, 0) == NO_BLOCK))
    ensures After(g, s, Open(path, flags, now, buffer)) == s
  {
    LocatedGood(g, s.fs, FileName(path), flags.create, now, buffer);
  }

  /** Closing gives back that handle, which no call accepts until it is opened again, and changes nothing else. */
  lemma CloseMeans(g: Geometry, s: System, fd: nat, s': System)
    requires Sane(g, s) && ValidFd(s, fd) && s' == After(g, s, Close(fd))
    ensures !ValidFd(s', fd) && s'.fs == s.fs && forall i :: i != fd ==> (ValidFd(s', i) <==> ValidFd(s, i))
    ensures forall i :: 0 <= i < |s.files| && i != fd ==> s'.files[i] == s.files[i]
    ensures FreeHandle(s'.files) <= fd
  {
    FreeAtMost(s'.files, fd);
  }

  lemma {:induction false} FreeAtMost(files: seq<Handle>, fd: nat)
    requires fd < |files| && !files[fd].inUse
    ensures FreeHandle(files) <= fd
  {
    if fd > 0 { FreeAtMost(files[1..], fd - 1); }
  }

  // ---- Directories ----

  lemma MadeDirIs(g: Geometry, fs: Fs, name: Name, now: Word, buffer: Block) returns (fs': Fs)
    requires Good(g, fs) && Find(fs, ROOT, name) == None && FreeInode(fs, 0) != NO_BLOCK && Linkable(g, fs)
    ensures fs' == MadeDir(g, fs, name, now, buffer) && fs' == Created(g, fs, name, DIRECTORY, now, buffer).0
    ensures Created(g, fs, name, DIRECTORY, now, buffer).1 == FreeInode(fs, 0)
  {
    FewInodes(g);
    CreateReports(g, fs, name, DIRECTORY, now, buffer);
    fs' := Created(g, fs, name, DIRECTORY, now, buffer).0;
  }

  /** Name leads to a new directory n, and all other files are as before; fs_rmdir would take it away again. */
  ghost predicate DirMade(g: Geometry, fs: Fs, fs': Fs, name: Name, n: nat, now: Word) {
    && Good(g, fs) && Good(g, fs') && 0 < n < g.inodes && Find(fs', ROOT, name) == Some(n)
    && IsNew(fs'.inodes[n], DIRECTORY, now) && OthersUntouched(g, fs, fs', n)
    && Dentry(name, n, DIRECTORY) in RootEntries(g, fs') && Removable(fs', name, true)
  }

  lemma NewDir(g: Geometry, fs: Fs, name: Name, now: Word, buffer: Block, n: Word, fs': Fs)
    requires Good(g, fs) && Find(fs, ROOT, name) == None && |name| < NAME_SIZE && Linkable(g, fs)
    requires n == FreeInode(fs, 0) && n != NO_BLOCK && fs' == MadeDir(g, fs, name, now, buffer)
    ensures DirMade(g, fs, fs', name, n, now)
  {
    var _ := MadeDirIs(g, fs, name, now, buffer);
    CreatedDir(g, fs, name, now, buffer, n, fs');
  }

  lemma CreatedFacts(g: Geometry, fs: Fs, name: Name, kind: Byte, now: Word, buffer: Block) returns (fs': Fs, n: nat)
    requires Good(g, fs) && kind != FREE && Find(fs, ROOT, name) == None && |name| < NAME_SIZE && Linkable(g, fs)
    requires Created(g, fs, name, kind, now, buffer).1 != NO_BLOCK
    ensures fs' == Created(g, fs, name, kind, now, buffer).0 && n == Created(g, fs, name, kind, now, buffer).1
    ensures Good(g, fs') && 0 < n < g.inodes && Find(fs', ROOT, name) == Some(n) && fs'.inodes[n] == Fresh(kind, now)
    ensures OthersUntouched(g, fs, fs', n) && Dentry(name, n, kind) in RootEntries(g, fs')
  {
    CreateUpdatesMap(g, fs, name, kind, now, buffer);
    fs', n := Created(g, fs, name, kind, now, buffer).0, Created(g, fs, name, kind, now, buffer).1;
  }

  lemma CreatedDir(g: Geometry, fs: Fs, name: Name, now: Word, buffer: Block, n: nat, fs': Fs)
    requires Good(g, fs) && Find(fs, ROOT, name) == None && |name| < NAME_SIZE && Linkable(g, fs)
    requires fs' == Created(g, fs, name, DIRECTORY, now, buffer).0
    requires n == Created(g, fs, name, DIRECTORY, now, buffer).1 && n != NO_BLOCK
    ensures DirMade(g, fs, fs', name, n, now)
  {
    var _, _ := CreatedFacts(g, fs, name, DIRECTORY, now, buffer);
    FreshIsNew(DIRECTORY, now);
  }

  /** A directory that is made has that type and nothing in it. */
  lemma MakeDirMeans(g: Geometry, s: System, path: Name, now: Word, buffer: Block, n: Word, s': System)
    requires Sane(g, s) && Find(s.fs, ROOT, FileName(path)) == None && |FileName(path)| < NAME_SIZE
    requires n == FreeInode(s.fs, 0) && n != NO_BLOCK && Linkable(g, s.fs)
    requires s' == After(g, s, MakeDir(path, now, buffer))
    ensures s'.files == s.files && DirMade(g, s.fs, s'.fs, FileName(path), n, now)
  {
    NewDir(g, s.fs, FileName(path), now, buffer, n, s'.fs);
  }

  // ---- Files that a call leaves alone ----

  /** The call does not write, truncate, remove or empty inode m. */
  predicate Spares(s: System, c: Call, m: nat)
    requires |s.fs.inodes| > 0
  {
    match c
    case Open(path, flags, _, _) => flags.trunc ==> Find(s.fs, ROOT, FileName(path)) != Some(m)
    case WriteFile(fd, _, _) => ValidFd(s, fd) && s.files[fd].flags.write ==> s.files[fd].inode != m
    case Truncate(fd, _, _) => ValidFd(s, fd) ==> s.files[fd].inode != m
    case Remove(path, _) => Find(s.fs, ROOT, FileName(path)) != Some(m)
    case RemoveDir(path, _) => Find(s.fs, ROOT, FileName(path)) != Some(m)
    case _ => true
  }

  /** A file in use, other than the root. */
  ghost predicate InUse(g: Geometry, fs: Fs, m: nat) { Shaped(g, fs) && 0 < m < g.inodes && fs.inodes[m].kind != FREE }

  lemma CreatedSame(g: Geometry, fs: Fs, name: Name, kind: Byte, now: Word, buffer: Block, m: nat)
    requires Good(g, fs) && InUse(g, fs, m) && kind != FREE && Find(fs, ROOT, name) == None
    ensures SameFile(g, fs, Created(g, fs, name, kind, now, buffer).0, m)
  {
    CreateUpdatesMap(g, fs, name, kind, now, buffer);
    var n := FreeInode(fs, 0);
    if n != NO_BLOCK { OthersSame(g, fs, Created(g, fs, name, kind, now, buffer).0, n, m); }
  }

  lemma OpenSame(g: Geometry, s: System, path: Name, flags: Flags, now: Word, buffer: Block, m: nat)
    requires Sane(g, s) && InUse(g, s.fs, m) && Spares(s, Open(path, flags, now, buffer), m)
    ensures SameFile(g, s.fs, Opened(g, s, path, flags, now, buffer).fs, m)
  {
    var name := FileName(path);
    LocatedGood(g, s.fs, name, flags.create, now, buffer);
    var l := Located(g, s.fs, name, flags.create, now, buffer);
    if Find(s.fs, ROOT, name) == None && flags.create { CreatedSame(g, s.fs, name, REGULAR, now, buffer, m); }
    if l.1 != NO_BLOCK && flags.trunc { EmptiedSame(g, s, name, flags.create, now, buffer, l.0, l.1, m); }
  }

  lemma EmptiedSame(g: Geometry, s: System, name: Name, create: bool, now: Word, buffer: Block, fs1: Fs, n: nat, m: nat)
    requires Sane(g, s) && InUse(g, s.fs, m) && Find(s.fs, ROOT, name) != Some(m)
    requires (fs1, n) == Located(g, s.fs, name, create, now, buffer) && n != NO_BLOCK
    requires Good(g, fs1) && n < g.inodes && SameFile(g, s.fs, fs1, m)
    ensures SameFile(g, s.fs, Emptied(g, fs1, n), m)
  {
    assert n != m by {
      if Find(s.fs, ROOT, name) == None { CreateUpdatesMap(g, s.fs, name, REGULAR, now, buffer); }
    }
    EmptiedKeeps(g, fs1, n);
    UntouchedSame(g, fs1, Emptied(g, fs1, n), n, m);
    SameTwice(g, s.fs, fs1, Emptied(g, fs1, n), m);
  }

  lemma UndoneSame(g: Geometry, fs: Fs, n: nat, now: Word, m: nat)
    requires Good(g, fs) && InUse(g, fs, m) && n < g.inodes && fs.inodes[n].kind == FREE
    ensures SameFile(g, fs, DirUndone(g, fs, n, now), m)
  {
    FreshKeeps(g, fs, n, DIRECTORY, now);
    var fs1 := WithNode(fs, n, Fresh(DIRECTORY, now));
    UntouchedSame(g, fs, fs1, n, m);
    RootGrownKeeps(g, fs1);
    UntouchedSame(g, fs1, RootGrown(g, fs1), ROOT, m);
    var fs3 := RootRestored(g, fs1);
    FileData.RemovedKeeps(g, fs3, n);
    UntouchedSame(g, fs3, FsModel.Removed(g, fs3, n), n, m);
  }

  lemma MakeDirSame(g: Geometry, fs: Fs, name: Name, now: Word, buffer: Block, m: nat)
    requires Good(g, fs) && InUse(g, fs, m)
    ensures Shaped(g, MadeDir(g, fs, name, now, buffer)) && SameFile(g, fs, MadeDir(g, fs, name, now, buffer), m)
  {
    FewInodes(g);
    var n := FreeInode(fs, 0);
    MadeDirGood(g, fs, name, now, buffer);
    if Find(fs, ROOT, name) == None && n != NO_BLOCK {
      CreatedSame(g, fs, name, DIRECTORY, now, buffer, m);
      UndoneSame(g, fs, n, now, m);
    }
  }

  lemma RemoveSame(g: Geometry, fs: Fs, name: Name, directory: bool, buffer: Block, m: nat)
    requires Good(g, fs) && InUse(g, fs, m) && Find(fs, ROOT, name) != Some(m)
    ensures SameFile(g, fs, UnlinkedName(g, fs, name, directory, buffer), m)
  {
    if Find(fs, ROOT, name).Some? {
      RemoveUpdatesMap(g, fs, name, buffer);
      OthersSame(g, fs, Unlinked(g, fs, Find(fs, ROOT, name).value, buffer), Find(fs, ROOT, name).value, m);
    }
  }

  lemma RenameSame(g: Geometry, fs: Fs, name: Name, target: Name, buffer: Block, m: nat)
    requires Good(g, fs) && InUse(g, fs, m)
    ensures SameFile(g, fs, Renamed(fs, name, target, buffer), m)
  {
    if Find(fs, ROOT, name).Some? && Find(fs, ROOT, target) == None {
      var fs' := RenameUpdatesMap(g, fs, name, target, buffer);
      UntouchedSame(g, fs, fs', ROOT, m);
    }
  }

  lemma WriteSame(g: Geometry, s: System, fd: nat, data: seq<Byte>, now: Word, m: nat)
    requires Sane(g, s) && InUse(g, s.fs, m) && ValidFd(s, fd) && s.files[fd].inode != m
    ensures SameFile(g, s.fs, WroteFile(g, s, fd, data, now).fs, m)
  {
    var h := s.files[fd];
    WrittenKeeps(g, s.fs, h.inode, h.position, data, now);
    UntouchedSame(g, s.fs, Written(g, s.fs, h.inode, h.position, data, now).0, h.inode, m);
  }

  lemma TruncateSame(g: Geometry, fs: Fs, n: nat, size: Word, now: Word, m: nat)
    requires Good(g, fs) && InUse(g, fs, m) && n < g.inodes && n != m
    ensures SameFile(g, fs, Truncated(g, fs, n, size, now), m)
  {
    TruncatedKeeps(g, fs, n, size, now);
    UntouchedSame(g, fs, Truncated(g, fs, n, size, now), n, m);
  }

  lemma AfterSame(g: Geometry, s: System, c: Call, m: nat)
    requires Sane(g, s) && InUse(g, s.fs, m) && Spares(s, c, m)
    ensures SameFile(g, s.fs, After(g, s, c).fs, m)
  {
    match c
    case Open(path, flags, now, buffer) => OpenSame(g, s, path, flags, now, buffer, m);
    case WriteFile(fd, data, now) => if ValidFd(s, fd) && s.files[fd].flags.write { WriteSame(g, s, fd, data, now, m); }
    case Truncate(fd, size, now) => if ValidFd(s, fd) { TruncateSame(g, s.fs, s.files[fd].inode, size, now, m); }
    case Remove(path, buffer) => RemoveSame(g, s.fs, FileName(path), false, buffer, m);
    case RemoveDir(path, buffer) => RemoveSame(g, s.fs, FileName(path), true, buffer, m);
    case Rename(path, target, buffer) => RenameSame(g, s.fs, FileName(path), FileName(target), buffer, m);
    case MakeDir(path, now, buffer) => MakeDirSame(g, s.fs, FileName(path), now, buffer, m);
    case _ =>
  }

  // ---- Whole sessions ----

  /** No call of the session writes, truncates, removes or empties inode m. */
  ghost predicate AllSpare(g: Geometry, s: System, calls: seq<Call>, m: nat)
    requires Sane(g, s)
    decreases |calls|
  {
    calls == [] || (
      && Spares(s, calls[0], m)
      && (AfterSane(g, s, calls[0]); AllSpare(g, After(g, s, calls[0]), calls[1..], m)))
  }

  lemma SpareStep(g: Geometry, s: System, calls: seq<Call>, m: nat) returns (s1: System, rest: seq<Call>)
    requires Sane(g, s) && InUse(g, s.fs, m) && calls != [] && AllSpare(g, s, calls, m)
    ensures Sane(g, s1) && InUse(g, s1.fs, m) && AllSpare(g, s1, rest, m) && |rest| < |calls|
    ensures SameFile(g, s.fs, s1.fs, m) && FsRuns.Run(g, s, calls) == FsRuns.Run(g, s1, rest)
  {
    AfterSane(g, s, calls[0]);
    AfterSame(g, s, calls[0], m);
    s1, rest := After(g, s, calls[0]), calls[1..];
  }

  /**
   * Over every session, whatever its other calls do and whether they fail or run out of space: a file that no call
   * writes, truncates, removes or opens for truncation keeps its inode, its blocks and so its contents.
   */
  lemma {:induction false} FileKept(g: Geometry, s: System, calls: seq<Call>, m: nat)
    requires Sane(g, s) && InUse(g, s.fs, m) && AllSpare(g, s, calls, m)
    ensures SameFile(g, s.fs, FsRuns.Run(g, s, calls).fs, m)
    ensures Dense(g, s.fs, m) ==>
      && Dense(g, FsRuns.Run(g, s, calls).fs, m)
      && Contents(g, FsRuns.Run(g, s, calls).fs, m) == Contents(g, s.fs, m)
    decreases |calls|
  {
    if calls != [] {
      var s1, rest := SpareStep(g, s, calls, m);
      FileKept(g, s1, rest, m);
      SameTwice(g, s.fs, s1.fs, FsRuns.Run(g, s1, rest).fs, m);
    }
    if Dense(g, s.fs, m) { SameContents(g, s.fs, FsRuns.Run(g, s, calls).fs, m); }
  }
}
