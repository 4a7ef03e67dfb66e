/** The root directory over whole sessions: with names that fit their field it is a map from names to inodes. */
module DirRuns {
  import opened Bytes
  import opened BlockCache
  import opened Inodes
  import opened Dentries
  import opened FsModel
  import opened FileData
  import opened Directory
  import opened FsRuns
  import opened Wrappers

  ghost function Names(g: Geometry, fs: Fs): map<Name, Word>
    requires Shaped(g, fs)
  {
    AsMap(RootEntries(g, fs))
  }

  /** What a call can do to the directory. */
  datatype Edit = Keep | Add(name: Name, inode: Word) | Drop(name: Name) | Move(name: Name, target: Name)

  function Edited(m: map<Name, Word>, e: Edit): map<Name, Word> {
    match e
    case Keep => m
    case Add(name, n) => m[name := n]
    case Drop(name) => m - {name}
    case Move(name, target) => if name in m then (m - {name})[target := m[name]] else m
  }

  /** Only new names are added, with inodes that no name leads to, and only to free names are others moved. */
  predicate Proper(m: map<Name, Word>, e: Edit) {
    match e
    case Keep => true
    case Add(name, n) => name !in m && n !in m.Values && n != 0
    case Drop(name) => name in m
    case Move(name, target) => name in m && target !in m
  }

  // ---- What each call does ----

  ghost function Addition(g: Geometry, fs: Fs, name: Name): Edit
    requires Shaped(g, fs)
  {
    FewInodes(g);
    if Find(fs, ROOT, name) == None && FreeInode(fs, 0) != NO_BLOCK && Linkable(g, fs) then Add(name, FreeInode(fs, 0))
    else Keep
  }

  function Removal(fs: Fs, name: Name, directory: bool): Edit
    requires |fs.inodes| > 0
  {
    if Removable(fs, name, directory) then Drop(name) else Keep
  }

  function Renaming(fs: Fs, name: Name, target: Name): Edit
    requires |fs.inodes| > 0
  {
    if Find(fs, ROOT, name).Some? && Find(fs, ROOT, target) == None then Move(name, target) else Keep
  }

  ghost function EditOf(g: Geometry, s: System, c: Call): Edit
    requires Sane(g, s)
  {
    match c
    case Open(path, flags, _, _) =>
      if flags.create && FreeHandle(s.files) < |s.files| then Addition(g, s.fs, FileName(path)) else Keep
    case MakeDir(path, _, _) => Addition(g, s.fs, FileName(path))
    case Remove(path, _) => Removal(s.fs, FileName(path), false)
    case RemoveDir(path, _) => Removal(s.fs, FileName(path), true)
    case Rename(path, target, _) => Renaming(s.fs, FileName(path), FileName(target))
    case _ => Keep
  }

  /** A name that is to be stored fits its field with the closing zero. */
  predicate Short(c: Call) {
    match c
    case Open(path, flags, _, _) => flags.create ==> |FileName(path)| < NAME_SIZE
    case MakeDir(path, _, _) => |FileName(path)| < NAME_SIZE
    case Rename(_, target, _) => |FileName(target)| < NAME_SIZE
    case _ => true
  }

  /** The names of fs' are those of fs after the edit, still unique, and the edit was a proper one. */
  ghost predicate Follows(g: Geometry, fs: Fs, fs': Fs, e: Edit)
    requires Shaped(g, fs)
  {
    && Shaped(g, fs') && Named(RootEntries(g, fs')) && Names(g, fs') == Edited(Names(g, fs), e)
    && Proper(Names(g, fs), e)
  }

  /** A free inode is not in the directory. */
  lemma FreeUnnamed(g: Geometry, fs: Fs, n: nat)
    requires Good(g, fs) && 0 < n < g.inodes && fs.inodes[n].kind == FREE
    ensures n !in Names(g, fs).Values
  {
    var m, es := Names(g, fs), RootEntries(g, fs);
    forall name | name in m ensures m[name] != n {
      var i := MapFromLive(es, name);
      assert LiveEntry(g, fs, es[i]);
    }
  }

  lemma Added(g: Geometry, fs: Fs, name: Name, kind: Byte, now: Word, buffer: Block) returns (fs': Fs, n: nat)
    requires Good(g, fs) && Named(RootEntries(g, fs)) && kind != FREE && |name| < NAME_SIZE
    requires Find(fs, ROOT, name) == None
    ensures fs' == Created(g, fs, name, kind, now, buffer).0 && n == Created(g, fs, name, kind, now, buffer).1
    ensures Good(g, fs') && Follows(g, fs, fs', Addition(g, fs, name))
    ensures n == NO_BLOCK || 0 < n < g.inodes
  {
    CreateUpdatesMap(g, fs, name, kind, now, buffer);
    fs', n := Created(g, fs, name, kind, now, buffer).0, Created(g, fs, name, kind, now, buffer).1;
    FindInRoot(g, fs, name);
    if n != NO_BLOCK { FreeUnnamed(g, fs, n); }
  }

  lemma MadeDirFollows(g: Geometry, fs: Fs, name: Name, now: Word, buffer: Block)
    requires Good(g, fs) && Named(RootEntries(g, fs)) && |name| < NAME_SIZE
    ensures Follows(g, fs, MadeDir(g, fs, name, now, buffer), Addition(g, fs, name))
  {
    FewInodes(g);
    var n := FreeInode(fs, 0);
    if Find(fs, ROOT, name) == None && n != NO_BLOCK {
      var fs', _ := Added(g, fs, name, DIRECTORY, now, buffer);
      CreateReports(g, fs, name, DIRECTORY, now, buffer);
      DirUndoneGood(g, fs, n, now);
    }
  }

  /** fs_open as far as the inode; what follows concerns the file only. */
  lemma LocatedFollows(g: Geometry, fs: Fs, name: Name, create: bool, now: Word, buffer: Block)
    returns (fs': Fs, n: nat)
    requires Good(g, fs) && Named(RootEntries(g, fs)) && (create ==> |name| < NAME_SIZE)
    ensures (fs', n) == Located(g, fs, name, create, now, buffer) && Good(g, fs')
    ensures n == NO_BLOCK || 0 < n < g.inodes
    ensures Follows(g, fs, fs', if create then Addition(g, fs, name) else Keep)
  {
    LocatedGood(g, fs, name, create, now, buffer);
    var l := Located(g, fs, name, create, now, buffer);
    fs', n := l.0, l.1;
    if Find(fs, ROOT, name) == None && create {
      var _, _ := Added(g, fs, name, REGULAR, now, buffer);
    }
  }

  lemma OpenedFollows(g: Geometry, s: System, path: Name, flags: Flags, now: Word, buffer: Block)
    requires Sane(g, s) && Named(RootEntries(g, s.fs)) && Short(Open(path, flags, now, buffer))
    ensures Follows(g, s.fs, Opened(g, s, path, flags, now, buffer).fs, EditOf(g, s, Open(path, flags, now, buffer)))
  {
    var fs1, n := LocatedFollows(g, s.fs, FileName(path), flags.create, now, buffer);
    if n != NO_BLOCK { EmptiedGood(g, fs1, n); }
  }

  lemma RemovedFollows(g: Geometry, fs: Fs, name: Name, directory: bool, buffer: Block)
    requires Good(g, fs) && Named(RootEntries(g, fs))
    ensures Follows(g, fs, UnlinkedName(g, fs, name, directory, buffer), Removal(fs, name, directory))
  {
    FindInRoot(g, fs, name);
    if Find(fs, ROOT, name).Some? { RemoveUpdatesMap(g, fs, name, buffer); }
  }

  lemma CutShort(name: Name)
    requires |name| < NAME_SIZE
    ensures Cut(name) == name
  {
  }

  lemma RenamedFollows(g: Geometry, fs: Fs, name: Name, target: Name, buffer: Block)
    requires Good(g, fs) && Named(RootEntries(g, fs)) && |target| < NAME_SIZE
    ensures Follows(g, fs, Renamed(fs, name, target, buffer), Renaming(fs, name, target))
  {
    FindInRoot(g, fs, name);
    FindInRoot(g, fs, target);
    if Find(fs, ROOT, name).Some? && Find(fs, ROOT, target) == None {
      var _ := RenameUpdatesMap(g, fs, name, target, buffer);
      CutShort(target);
    }
  }

  /** Every call with short names does to the directory what its edit does to the map. */
  lemma AfterFollows(g: Geometry, s: System, c: Call)
    requires Sane(g, s) && Named(RootEntries(g, s.fs)) && Short(c)
    ensures Follows(g, s.fs, After(g, s, c).fs, EditOf(g, s, c))
  {
    match c
    case Open(path, flags, now, buffer) => OpenedFollows(g, s, path, flags, now, buffer);
    case WriteFile(fd, data, now) =>
      if ValidFd(s, fd) { WrittenGood(g, s.fs, s.files[fd].inode, s.files[fd].position, data, now); }
    case Truncate(fd, size, now) => if ValidFd(s, fd) { TruncatedGood(g, s.fs, s.files[fd].inode, size, now); }
    case Remove(path, buffer) => RemovedFollows(g, s.fs, FileName(path), false, buffer);
    case RemoveDir(path, buffer) => RemovedFollows(g, s.fs, FileName(path), true, buffer);
    case Rename(path, target, buffer) => RenamedFollows(g, s.fs, FileName(path), FileName(target), buffer);
    case MakeDir(path, now, buffer) => MadeDirFollows(g, s.fs, FileName(path), now, buffer);
    case _ =>
  }

  // ---- Whole sessions ----

  predicate AllShort(calls: seq<Call>) { forall i :: 0 <= i < |calls| ==> Short(calls[i]) }

  /** The edits of a session, call by call. */
  ghost function Edits(g: Geometry, s: System, calls: seq<Call>): seq<Edit>
    requires Sane(g, s)
    decreases |calls|
  {
    if calls == [] then []
    else
      AfterSane(g, s, calls[0]);
      [EditOf(g, s, calls[0])] + Edits(g, After(g, s, calls[0]), calls[1..])
  }

  function EditedBy(m: map<Name, Word>, es: seq<Edit>): map<Name, Word>
    decreases |es|
  {
    if es == [] then m else EditedBy(Edited(m, es[0]), es[1..])
  }

  predicate AllProper(m: map<Name, Word>, es: seq<Edit>)
    decreases |es|
  {
    es == [] || (Proper(m, es[0]) && AllProper(Edited(m, es[0]), es[1..]))
  }

  lemma EditsStep(m: map<Name, Word>, e: Edit, m1: map<Name, Word>, es: seq<Edit>)
    requires m1 == Edited(m, e)
    ensures EditedBy(m, [e] + es) == EditedBy(m1, es)
    ensures AllProper(m, [e] + es) <==> Proper(m, e) && AllProper(m1, es)
  {
    assert ([e] + es)[1..] == es;
  }

  lemma RunStep(g: Geometry, s: System, calls: seq<Call>) returns (s1: System, rest: seq<Call>)
    requires Sane(g, s) && calls != [] && Named(RootEntries(g, s.fs)) && AllShort(calls)
    ensures Sane(g, s1) && rest == calls[1..] && AllShort(rest) && FsRuns.Run(g, s, calls) == FsRuns.Run(g, s1, rest)
    ensures Edits(g, s, calls) == [EditOf(g, s, calls[0])] + Edits(g, s1, rest)
    ensures Follows(g, s.fs, s1.fs, EditOf(g, s, calls[0]))
  {
    AfterSane(g, s, calls[0]);
    AfterFollows(g, s, calls[0]);
    s1, rest := After(g, s, calls[0]), calls[1..];
  }

  /**
   * Over every session with names shorter than their field, failed calls and calls out of space included: the names
   * stay unique, the directory is the map that the edits make of the one at the start, and every edit is proper.
   */
  lemma {:induction false} DirectoryIsMap(g: Geometry, s: System, calls: seq<Call>)
    requires Sane(g, s) && Named(RootEntries(g, s.fs)) && AllShort(calls)
    ensures Sane(g, FsRuns.Run(g, s, calls)) && Named(RootEntries(g, FsRuns.Run(g, s, calls).fs))
    ensures Names(g, FsRuns.Run(g, s, calls).fs) == EditedBy(Names(g, s.fs), Edits(g, s, calls))
    ensures AllProper(Names(g, s.fs), Edits(g, s, calls))
    decreases |calls|
  {
    if calls != [] {
      var s1, rest := RunStep(g, s, calls);
      DirectoryIsMap(g, s1, rest);
      EditsStep(Names(g, s.fs), EditOf(g, s, calls[0]), Names(g, s1.fs), Edits(g, s1, rest));
    }
  }

  /** So a lookup at the end of a session finds what the edits made of the empty map of a fresh format. */
  lemma LookupAfter(g: Geometry, s: System, calls: seq<Call>, name: Name)
    requires Formatted(g, s.fs) && |s.files| == MAX_OPEN_FILES && AllShort(calls)
    requires forall i :: 0 <= i < MAX_OPEN_FILES ==> !s.files[i].inUse
    ensures Sane(g, s) && Sane(g, FsRuns.Run(g, s, calls))
    ensures Find(FsRuns.Run(g, s, calls).fs, ROOT, name) == Lookup(EditedBy(map[], Edits(g, s, calls)), name)
  {
    FormatSane(g, s);
    DirectoryIsMap(g, s, calls);
    FindInRoot(g, FsRuns.Run(g, s, calls).fs, name);
  }
}
