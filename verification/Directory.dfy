/** The root directory: a map from names to inode numbers, kept in packed entries. */
module Directory {
  import opened Bytes
  import opened BlockCache
  import opened Bitmap
  import opened Inodes
  import opened Dentries
  import opened FsModel
  import opened FileData
  import opened Wrappers

  const ROOT := 0

  // ---- Entries of one block ----

  function FindIn(es: seq<Dentry>, name: Name): Option<Word> {
    if es == [] then None
    else if es[0].inode != 0 && es[0].name == name then Some(es[0].inode)
    else FindIn(es[1..], name)
  }

  /** The first entry with this inode number. */
  function IndexOf(es: seq<Dentry>, n: Word): (i: nat)
    ensures i <= |es| && (i < |es| ==> es[i].inode == n) && forall j :: 0 <= j < i ==> es[j].inode != n
  {
    if es == [] || es[0].inode == n then 0
    else
      var i := IndexOf(es[1..], n);
      assert forall j :: 1 <= j < 1 + i ==> es[j] == es[1..][j - 1];
      1 + i
  }

  lemma {:induction false} IndexOfIs(es: seq<Dentry>, n: Word, i: nat)
    requires i <= |es| && (i < |es| ==> es[i].inode == n) && forall j :: 0 <= j < i ==> es[j].inode != n
    ensures IndexOf(es, n) == i
  {
    if i > 0 {
      assert forall j :: 0 <= j < i - 1 ==> es[1..][j] == es[j + 1];
      IndexOfIs(es[1..], n, i - 1);
    }
  }

  /** No two live entries have the same inode. */
  ghost predicate Distinct(es: seq<Dentry>) {
    forall i, j :: 0 <= i < j < |es| && es[i].inode != 0 ==> es[i].inode != es[j].inode
  }

  /** No two live entries have the same name. */
  ghost predicate Named(es: seq<Dentry>) {
    forall i, j :: 0 <= i < j < |es| && es[i].inode != 0 && es[j].inode != 0 ==> es[i].name != es[j].name
  }

  /** What the entries mean; an earlier entry hides a later one of the same name. */
  function AsMap(es: seq<Dentry>): map<Name, Word> {
    if es == [] then map[]
    else if es[0].inode != 0 then AsMap(es[1..])[es[0].name := es[0].inode]
    else AsMap(es[1..])
  }

  function Lookup(m: map<Name, Word>, name: Name): Option<Word> { if name in m then Some(m[name]) else None }

  lemma {:induction false} FindIsLookup(es: seq<Dentry>, name: Name)
    ensures FindIn(es, name) == Lookup(AsMap(es), name)
  {
    if es != [] { FindIsLookup(es[1..], name); }
  }

  /** Setting a free entry to a new name adds one key. */
  lemma {:induction false} AddEntry(es: seq<Dentry>, i: nat, e: Dentry)
    requires i < |es| && es[i].inode == 0 && e.inode != 0 && e.name !in AsMap(es)
    ensures AsMap(es[i := e]) == AsMap(es)[e.name := e.inode]
  {
    if i == 0 {
      assert es[i := e][1..] == es[1..];
    } else {
      assert es[i := e][1..] == es[1..][i - 1 := e];
      AddEntry(es[1..], i - 1, e);
    }
  }

  lemma {:induction false} LiveInMap(es: seq<Dentry>, i: nat)
    requires i < |es| && es[i].inode != 0
    ensures es[i].name in AsMap(es)
  {
    if i > 0 {
      assert es[1..][i - 1] == es[i];
      LiveInMap(es[1..], i - 1);
    }
  }

  lemma {:induction false} MapFromLive(es: seq<Dentry>, name: Name) returns (i: nat)
    requires name in AsMap(es)
    ensures i < |es| && es[i].inode != 0 && es[i].name == name && AsMap(es)[name] == es[i].inode
  {
    if es[0].inode != 0 && es[0].name == name {
      i := 0;
    } else {
      i := MapFromLive(es[1..], name);
      i := i + 1;
    }
  }

  lemma NamedRest(es: seq<Dentry>)
    requires Named(es) && es != []
    ensures Named(es[1..]) && (es[0].inode != 0 ==> es[0].name !in AsMap(es[1..]))
  {
    if es[0].inode != 0 && es[0].name in AsMap(es[1..]) {
      var i := MapFromLive(es[1..], es[0].name);
      assert false;
    }
    forall i, j | 0 <= i < j < |es[1..]| && es[1..][i].inode != 0 && es[1..][j].inode != 0
      ensures es[1..][i].name != es[1..][j].name
    {
      assert es[i + 1].name != es[j + 1].name;
    }
  }

  /** Clearing an entry removes its key. */
  lemma {:induction false} DropEntry(es: seq<Dentry>, i: nat)
    requires Named(es) && i < |es| && es[i].inode != 0
    ensures AsMap(es[i := NO_ENTRY]) == AsMap(es) - {es[i].name}
  {
    NamedRest(es);
    if i == 0 {
      assert es[i := NO_ENTRY][1..] == es[1..];
    } else {
      assert es[i := NO_ENTRY][1..] == es[1..][i - 1 := NO_ENTRY];
      DropEntry(es[1..], i - 1);
      LiveInMap(es[1..], i - 1);
    }
  }

  /** Entries keep unique names when one is cleared, or set to a name that was not there. */
  lemma NamedAfter(es: seq<Dentry>, i: nat, e: Dentry)
    requires Named(es) && i < |es|
    requires e.inode == 0 || e.name !in AsMap(es) || (es[i].inode != 0 && es[i].name == e.name)
    ensures Named(es[i := e])
  {
    forall j | 0 <= j < |es| && j != i && es[j].inode != 0 && e.inode != 0 ensures es[j].name != e.name {
      LiveInMap(es, j);
    }
  }

  // ---- The root directory ----

  /** The entries of the root's block, if it has one. */
  function RootEntries(g: Geometry, s: Fs): seq<Dentry>
    requires Shaped(g, s)
  {
    var p := s.inodes[ROOT].blocks[0];
    if Real(g, p) then Entries(s.blocks[p]) else []
  }

  /** A live entry leads to an inode in use, other than the root. */
  ghost predicate LiveEntry(g: Geometry, s: Fs, e: Dentry)
    requires Shaped(g, s)
  {
    e.inode != 0 ==> e.inode < g.inodes && s.inodes[e.inode].kind != FREE
  }

  /** The root is a directory of at most one block, whose entries lead to distinct inodes in use. */
  ghost predicate RootOk(g: Geometry, s: Fs) {
    && Shaped(g, s) && s.inodes[ROOT].kind == DIRECTORY && s.inodes[ROOT].blocks[1] == 0
    && Distinct(RootEntries(g, s))
    && forall i :: 0 <= i < |RootEntries(g, s)| ==> LiveEntry(g, s, RootEntries(g, s)[i])
  }

  ghost predicate Good(g: Geometry, s: Fs) { Inv(g, s) && RootOk(g, s) }

  /** fs_find_in_dir */
  function FindFrom(s: Fs, x: Inode, k: nat, name: Name): Option<Word>
    decreases POINTERS - k
  {
    if k >= POINTERS || x.blocks[k] == 0 then None
    else match StoreRead(s.blocks, x.blocks[k])
      case None => FindFrom(s, x, k + 1, name)
      case Some(b) =>
        match FindIn(Entries(b), name)
        case Some(n) => Some(n)
        case None => FindFrom(s, x, k + 1, name)
  }

  function Find(s: Fs, n: nat, name: Name): Option<Word>
    requires n < |s.inodes|
  {
    if s.inodes[n].kind != DIRECTORY then None else FindFrom(s, s.inodes[n], 0, name)
  }

  lemma FindInRoot(g: Geometry, s: Fs, name: Name)
    requires Good(g, s)
    ensures Find(s, ROOT, name) == FindIn(RootEntries(g, s), name) == Lookup(AsMap(RootEntries(g, s)), name)
  {
    FindIsLookup(RootEntries(g, s), name);
    var x := s.inodes[ROOT];
    assert FindFrom(s, x, 1, name) == None;
  }

  lemma {:induction false} FoundLive(es: seq<Dentry>, name: Name)
    requires FindIn(es, name).Some?
    ensures exists i :: 0 <= i < |es| && es[i].inode == FindIn(es, name).value != 0 && es[i].name == name
  {
    if es[0].inode != 0 && es[0].name == name {
    } else {
      FoundLive(es[1..], name);
      var i :| 0 <= i < |es[1..]| && es[1..][i].inode == FindIn(es[1..], name).value != 0 && es[1..][i].name == name;
      assert es[i + 1] == es[1..][i];
    }
  }

  /** A name that is found leads to an inode in use, other than the root. */
  lemma FoundInode(g: Geometry, s: Fs, name: Name)
    requires Good(g, s) && Find(s, ROOT, name).Some?
    ensures var n := Find(s, ROOT, name).value; 0 < n < g.inodes && s.inodes[n].kind != FREE
  {
    FindInRoot(g, s, name);
    FoundLive(RootEntries(g, s), name);
  }

  // ---- Work on other inodes leaves the directory alone ----

  lemma UntouchedRoot(g: Geometry, s: Fs, s': Fs, n: nat)
    requires Good(g, s) && Inv(g, s') && 0 < n < g.inodes && Untouched(g, s, s', n)
    ensures RootEntries(g, s') == RootEntries(g, s)
    ensures s'.inodes[n].kind != FREE ==> Good(g, s')
    ensures (forall i :: 0 <= i < |RootEntries(g, s)| ==> RootEntries(g, s)[i].inode != n) ==> Good(g, s')
  {
    assert s'.inodes[ROOT] == s.inodes[ROOT];
    var es := RootEntries(g, s);
    assert RootEntries(g, s') == es;
    if s'.inodes[n].kind != FREE || (forall i :: 0 <= i < |es| ==> es[i].inode != n) {
      forall i | 0 <= i < |es| ensures LiveEntry(g, s', es[i]) {
        assert LiveEntry(g, s, es[i]);
      }
    }
  }

  // ---- Replacing the root's block ----

  /** New contents for the root's block: the invariant and all other files are as before. */
  lemma RootBlockKeeps(g: Geometry, s: Fs, b: Block)
    requires Inv(g, s) && Real(g, s.inodes[ROOT].blocks[0])
    ensures var p := s.inodes[ROOT].blocks[0]; var s' := s.(blocks := s.blocks[p := b]);
            Inv(g, s') && Untouched(g, s, s', ROOT) && RootEntries(g, s') == Entries(b)
  {
    BlocksKeepInv(g, s, s.blocks[s.inodes[ROOT].blocks[0] := b]);
  }

  lemma EmptyEntries()
    ensures forall i :: 0 <= i < PER_DIR_BLOCK ==> Entries(Zeros())[i] == NO_ENTRY
    ensures AsMap(Entries(Zeros())) == map[] && IndexOf(Entries(Zeros()), 0) == 0
  {
    var es := Entries(Zeros());
    forall i | 0 <= i < PER_DIR_BLOCK ensures es[i] == NO_ENTRY { assert EntryAt(Zeros(), i) == NO_ENTRY; }
    NothingLive(es);
  }

  lemma {:induction false} NothingLive(es: seq<Dentry>)
    requires forall i :: 0 <= i < |es| ==> es[i].inode == 0
    ensures AsMap(es) == map[]
  {
    if es != [] { NothingLive(es[1..]); }
  }

  // ---- Adding an entry ----

  /** The root with a block, if it has none and one can be had. */
  ghost function RootGrown(g: Geometry, s: Fs): Fs
    requires Shaped(g, s)
  {
    if s.inodes[ROOT].blocks[0] == 0 then Grown(g, s, ROOT, 0) else s
  }

  /** The directory block as read, or what the buffer held if it cannot be read. */
  function DirBlock(s: Fs, buffer: Block): Block
    requires |s.inodes| > 0
  {
    BlockRead(s, s.inodes[ROOT].blocks[0], buffer)
  }

  /** There is a free entry, or a block for more of them. */
  ghost predicate Linkable(g: Geometry, s: Fs)
    requires Shaped(g, s)
  {
    if s.inodes[ROOT].blocks[0] == 0 then s.free > 0
    else Real(g, s.inodes[ROOT].blocks[0]) && IndexOf(RootEntries(g, s), 0) < PER_DIR_BLOCK
  }

  lemma RootGrownKeeps(g: Geometry, s: Fs)
    requires Good(g, s)
    ensures var s' := RootGrown(g, s);
            && Good(g, s') && Untouched(g, s, s', ROOT) && AsMap(RootEntries(g, s')) == AsMap(RootEntries(g, s))
            && (Named(RootEntries(g, s)) ==> Named(RootEntries(g, s')))
            && (Linkable(g, s) <==> RoomInRoot(g, s'))
            && s'.inodes[ROOT].size == s.inodes[ROOT].size && s'.inodes[ROOT].blocks[0] != 0
  {
    if s.inodes[ROOT].blocks[0] == 0 {
      GrownKeeps(g, s, ROOT, 0);
      FirstBlock(g, s);
      EmptyEntries();
    }
  }

  /** The first block of the root, if it can be had, is empty. */
  lemma FirstBlock(g: Geometry, s: Fs)
    requires Inv(g, s) && s.inodes[ROOT].blocks[0] == 0
    ensures var s', b := Grown(g, s, ROOT, 0), Grown(g, s, ROOT, 0).inodes[ROOT].blocks[0];
            if s.free > 0 then Real(g, b) && s'.blocks[b] == Zeros() else b == NO_BLOCK
  {
    AllocIffFree(g, s);
  }

  /** The directory's inode with the size of one more entry. */
  function Enlarged(x: Inode): Inode { x.(size := (x.size + ENTRY_SIZE) % 0x1_0000_0000) }

  /** A new entry in the first free place of the root's block, if there is one; the directory grows in any case. */
  function LinkAt(s: Fs, name: Name, n: Word, kind: Byte, buffer: Block): (Fs, bool)
    requires |s.inodes| > 0
  {
    var b := DirBlock(s, buffer);
    var i := IndexOf(Entries(b), 0);
    var b' := if i < PER_DIR_BLOCK then WithEntry(b, i, name, n, kind) else b;
    var root := s.inodes[ROOT];
    (WithNode(s.(blocks := StoreWrite(s.blocks, root.blocks[0], b')), ROOT, Enlarged(root)),
     i < PER_DIR_BLOCK)
  }

  /** The end of fs_open's creation and of fs_mkdir */
  ghost function Link(g: Geometry, s: Fs, name: Name, n: Word, kind: Byte, buffer: Block): (Fs, bool)
    requires Shaped(g, s)
  {
    LinkAt(RootGrown(g, s), name, n, kind, buffer)
  }

  /** No entry leads to inode n. */
  ghost predicate Absent(es: seq<Dentry>, n: Word) { forall i :: 0 <= i < |es| ==> es[i].inode != n }

  lemma RootSizeKeeps(g: Geometry, s: Fs, size: Word)
    requires Good(g, s)
    ensures var s' := WithNode(s, ROOT, s.inodes[ROOT].(size := size));
            Good(g, s') && Untouched(g, s, s', ROOT) && RootEntries(g, s') == RootEntries(g, s)
  {
    NodeKeeps(g, s, ROOT, s.inodes[ROOT].(size := size));
  }

  lemma EntryKeeps(g: Geometry, s: Fs, i: nat, e: Dentry, b: Block)
    requires Good(g, s) && Real(g, s.inodes[ROOT].blocks[0]) && i < PER_DIR_BLOCK
    requires Entries(b) == RootEntries(g, s)[i := e]
    requires e.inode == 0 || (LiveEntry(g, s, e) && Absent(RootEntries(g, s)[i := NO_ENTRY], e.inode))
    ensures var s' := s.(blocks := s.blocks[s.inodes[ROOT].blocks[0] := b]);
            Good(g, s') && Untouched(g, s, s', ROOT) && RootEntries(g, s') == Entries(b)
  {
    RootBlockKeeps(g, s, b);
    var es, es0 := Entries(b), RootEntries(g, s)[i := NO_ENTRY];
    assert forall j :: 0 <= j < |es| && j != i ==> es[j] == RootEntries(g, s)[j] == es0[j];
  }

  /** What linking does to the map, as seen from the entries before. */
  ghost predicate MapLinked(es: seq<Dentry>, es': seq<Dentry>, name: Name, n: Word, kind: Byte, room: bool) {
    && (!room ==> AsMap(es') == AsMap(es))
    && (room && Cut(name) !in AsMap(es) ==> AsMap(es') == AsMap(es)[Cut(name) := n])
    && (Named(es) && (room ==> Cut(name) !in AsMap(es)) ==> Named(es'))
    && (forall i :: 0 <= i < |es'| && es'[i].inode == n ==> es'[i].name == Cut(name))
    && (room ==> Dentry(Cut(name), n, kind) in es')
  }

  /** Linking a new inode adds its stored name to the map, if there is a place for it, and touches no other file. */
  lemma LinkKeeps(g: Geometry, s: Fs, name: Name, n: Word, kind: Byte, buffer: Block)
    requires Good(g, s) && 0 < n < g.inodes && s.inodes[n].kind != FREE && Absent(RootEntries(g, s), n)
    ensures var s' := Link(g, s, name, n, kind, buffer).0;
            && Good(g, s') && Untouched(g, s, s', ROOT)
            && MapLinked(RootEntries(g, s), RootEntries(g, s'), name, n, kind, Linkable(g, s))
  {
    var s1 := RootGrown(g, s);
    RootGrownKeeps(g, s);
    GrownAbsent(g, s, n);
    LinkAtKeeps(g, s1, name, n, kind, buffer);
    UntouchedThen(g, s, s1, LinkAt(s1, name, n, kind, buffer).0, ROOT);
  }

  ghost predicate RoomInRoot(g: Geometry, s: Fs)
    requires Shaped(g, s)
  {
    Real(g, s.inodes[ROOT].blocks[0]) && IndexOf(RootEntries(g, s), 0) < PER_DIR_BLOCK
  }

  lemma LinkAtKeeps(g: Geometry, s: Fs, name: Name, n: Word, kind: Byte, buffer: Block)
    requires Good(g, s) && 0 < n < g.inodes && s.inodes[n].kind != FREE && Absent(RootEntries(g, s), n)
    requires s.inodes[ROOT].blocks[0] != 0
    ensures var s' := LinkAt(s, name, n, kind, buffer).0;
            && Good(g, s') && Untouched(g, s, s', ROOT)
            && MapLinked(RootEntries(g, s), RootEntries(g, s'), name, n, kind, RoomInRoot(g, s))
  {
    var s2 := LinkEntry(g, s, name, n, kind, buffer);
    RootSizeKeeps(g, s2, Enlarged(s2.inodes[ROOT]).size);
    UntouchedThen(g, s, s2, WithNode(s2, ROOT, Enlarged(s2.inodes[ROOT])), ROOT);
  }

  lemma GrownAbsent(g: Geometry, s: Fs, n: Word)
    requires Good(g, s) && 0 < n && Absent(RootEntries(g, s), n)
    ensures Shaped(g, RootGrown(g, s)) && Absent(RootEntries(g, RootGrown(g, s)), n)
  {
    RootGrownKeeps(g, s);
    if s.inodes[ROOT].blocks[0] == 0 {
      EmptyEntries();
      AllocIffFree(g, s);
    }
  }

  /** The entry itself, once the root has its block. */
  lemma LinkEntry(g: Geometry, s: Fs, name: Name, n: Word, kind: Byte, buffer: Block) returns (s': Fs)
    requires Good(g, s) && 0 < n < g.inodes && s.inodes[n].kind != FREE && Absent(RootEntries(g, s), n)
    requires s.inodes[ROOT].blocks[0] != 0
    ensures var b := DirBlock(s, buffer); var i := IndexOf(Entries(b), 0);
            s' == s.(blocks := StoreWrite(s.blocks, s.inodes[ROOT].blocks[0],
                                          if i < PER_DIR_BLOCK then WithEntry(b, i, name, n, kind) else b))
    ensures && Good(g, s') && Untouched(g, s, s', ROOT)
            && MapLinked(RootEntries(g, s), RootEntries(g, s'), name, n, kind, RoomInRoot(g, s))
  {
    var p, b, es := s.inodes[ROOT].blocks[0], DirBlock(s, buffer), RootEntries(g, s);
    var i := IndexOf(Entries(b), 0);
    var b' := if i < PER_DIR_BLOCK then WithEntry(b, i, name, n, kind) else b;
    s' := s.(blocks := StoreWrite(s.blocks, p, b'));
    if Real(g, p) {
      if i < PER_DIR_BLOCK {
        var e := Dentry(Cut(name), n, kind);
        WithEntryAt(b, i, name, n, kind);
        EntryKeeps(g, s, i, e, b');
        assert RootEntries(g, s')[i] == e;
        if Cut(name) !in AsMap(es) {
          AddEntry(es, i, e);
          if Named(es) { NamedAfter(es, i, e); }
        }
      } else {
        assert s.blocks[p := b] == s.blocks;
      }
    }
  }

  // ---- Inodes ----

  /** fs_alloc_inode */
  function FreeInode(s: Fs, i: nat): (n: nat)
    requires i <= |s.inodes|
    ensures n == NO_BLOCK || (i <= n < |s.inodes| && s.inodes[n].kind == FREE)
    decreases |s.inodes| - i
  {
    if i == |s.inodes| then NO_BLOCK else if s.inodes[i].kind == FREE then i else FreeInode(s, i + 1)
  }

  lemma FreshKeeps(g: Geometry, s: Fs, n: nat, kind: Byte, now: Word)
    requires Good(g, s) && n < g.inodes && s.inodes[n].kind == FREE && kind != FREE
    ensures var s' := WithNode(s, n, Fresh(kind, now));
            && 0 < n && Good(g, s') && Untouched(g, s, s', n) && RootEntries(g, s') == RootEntries(g, s)
            && Absent(RootEntries(g, s'), n)
  {
    NodeKeeps(g, s, n, Fresh(kind, now));
    var s', es := WithNode(s, n, Fresh(kind, now)), RootEntries(g, s);
    forall i | 0 <= i < |es| ensures es[i].inode != n { assert LiveEntry(g, s, es[i]); }
    UntouchedRoot(g, s, s', n);
  }

  /** A small table, so that inode numbers are below the mark for none. */
  lemma FewInodes(g: Geometry)
    requires Sound(g)
    ensures g.inodes < NO_BLOCK
  {
  }

  /** The creation of a file or directory under a name that is not there, up to and including its entry. */
  ghost function Created(g: Geometry, s: Fs, name: Name, kind: Byte, now: Word, buffer: Block): (Fs, nat, bool)
    requires Shaped(g, s)
  {
    FewInodes(g);
    var n := FreeInode(s, 0);
    if n == NO_BLOCK then (s, n, false)
    else
      var (s', linked) := Link(g, WithNode(s, n, Fresh(kind, now)), name, n, kind, buffer);
      (s', n, linked)
  }

  /** The root's block is on the device, or can be had. */
  ghost predicate RootReadable(g: Geometry, s: Fs)
    requires Shaped(g, s)
  {
    if s.inodes[ROOT].blocks[0] == 0 then s.free > 0 else Real(g, s.inodes[ROOT].blocks[0])
  }

  lemma LinkReports(g: Geometry, s: Fs, name: Name, n: Word, kind: Byte, buffer: Block)
    requires Good(g, s)
    ensures Link(g, s, name, n, kind, buffer).1 <==>
      if RootReadable(g, s) then Linkable(g, s) else IndexOf(Entries(buffer), 0) < PER_DIR_BLOCK
  {
    RootGrownKeeps(g, s);
    AllocIffFree(g, s);
  }

  /** Creation reports success given an inode and a place; without a readable root it goes by a stale buffer. */
  ghost predicate Creatable(g: Geometry, s: Fs, buffer: Block)
    requires Shaped(g, s)
  {
    FewInodes(g);
    && FreeInode(s, 0) != NO_BLOCK
    && if RootReadable(g, s) then Linkable(g, s) else IndexOf(Entries(buffer), 0) < PER_DIR_BLOCK
  }

  lemma CreateReports(g: Geometry, s: Fs, name: Name, kind: Byte, now: Word, buffer: Block)
    requires Good(g, s) && kind != FREE
    ensures Created(g, s, name, kind, now, buffer).2 <==> Creatable(g, s, buffer)
  {
    FewInodes(g);
    var n := FreeInode(s, 0);
    if n != NO_BLOCK {
      FreshKeeps(g, s, n, kind, now);
      LinkReports(g, WithNode(s, n, Fresh(kind, now)), name, n, kind, buffer);
    }
  }

  /** Files other than n and the root are as before. */
  ghost predicate OthersUntouched(g: Geometry, s: Fs, s': Fs, n: nat)
    requires Shaped(g, s) && Shaped(g, s')
  {
    forall m :: 0 < m < g.inodes && m != n ==>
      && s'.inodes[m] == s.inodes[m]
      && forall k :: 0 <= k < POINTERS && Real(g, s.inodes[m].blocks[k]) ==>
           s'.blocks[s.inodes[m].blocks[k]] == s.blocks[s.inodes[m].blocks[k]]
  }

  lemma TwoSteps(g: Geometry, s: Fs, s1: Fs, s2: Fs, n: nat)
    requires Shaped(g, s) && Shaped(g, s1) && Shaped(g, s2)
    requires Untouched(g, s, s1, n) && Untouched(g, s1, s2, ROOT)
    ensures OthersUntouched(g, s, s2, n)
  {
  }

  /**
   * Creation adds exactly one key when there is an inode and a place for its entry; other files are unchanged.
   * The name is found afterwards if and only if it is shorter than the name field.
   */
  lemma CreateUpdatesMap(g: Geometry, s: Fs, name: Name, kind: Byte, now: Word, buffer: Block)
    requires Good(g, s) && kind != FREE && Find(s, ROOT, name) == None
    ensures var (s', n, linked) := Created(g, s, name, kind, now, buffer);
            var m, m' := AsMap(RootEntries(g, s)), if Shaped(g, s') then AsMap(RootEntries(g, s')) else map[];
            && Good(g, s') && OthersUntouched(g, s, s', n)
            && (n == NO_BLOCK ==> s' == s)
            && (n != NO_BLOCK ==> 0 < n < g.inodes && s.inodes[n].kind == FREE && s'.inodes[n] == Fresh(kind, now))
            && (n != NO_BLOCK && !Linkable(g, s) ==> m' == m)
            && (n != NO_BLOCK && Linkable(g, s) && |name| < NAME_SIZE ==> m' == m[name := n])
            && (n != NO_BLOCK && Linkable(g, s) ==> (Find(s', ROOT, name) == Some(n) <==> |name| < NAME_SIZE))
            && (|name| < NAME_SIZE && Named(RootEntries(g, s)) ==> Named(RootEntries(g, s')))
            && (n != NO_BLOCK && Linkable(g, s) ==> Dentry(Cut(name), n, kind) in RootEntries(g, s'))
  {
    FewInodes(g);
    FindInRoot(g, s, name);
    var n := FreeInode(s, 0);
    if n != NO_BLOCK {
      FreshKeeps(g, s, n, kind, now);
      var s1 := WithNode(s, n, Fresh(kind, now));
      LinkKeeps(g, s1, name, n, kind, buffer);
      var s' := Link(g, s1, name, n, kind, buffer).0;
      TwoSteps(g, s, s1, s', n);
      FindInRoot(g, s', name);
      if Find(s', ROOT, name) == Some(n) { FoundLive(RootEntries(g, s'), name); }
    }
  }

  // ---- Changing the entry of an inode ----

  /** Clears an entry, or gives it another name. */
  function Edited(b: Block, i: nat, rename: Option<Name>): Block
    requires i < PER_DIR_BLOCK
  {
    match rename case None => Cleared(b, i) case Some(name) => WithName(b, i, name)
  }

  function EditedEntry(e: Dentry, rename: Option<Name>): Dentry {
    match rename case None => NO_ENTRY case Some(name) => e.(name := Cut(name))
  }

  lemma EditedAt(b: Block, i: nat, rename: Option<Name>)
    requires i < PER_DIR_BLOCK
    ensures Entries(Edited(b, i, rename)) == Entries(b)[i := EditedEntry(Entries(b)[i], rename)]
  {
    match rename
    case None => ClearedAt(b, i);
    case Some(name) => WithNameAt(b, i, name);
  }

  /** The loop that looks through a directory for the entry of inode n, and edits it. */
  function EditFrom(s: Fs, x: Inode, k: nat, n: Word, rename: Option<Name>, buffer: Block): (Fs, bool)
    decreases POINTERS - k
  {
    if k >= POINTERS || x.blocks[k] == 0 then (s, false)
    else
      var b := BlockRead(s, x.blocks[k], buffer);
      var i := IndexOf(Entries(b), n);
      if i < PER_DIR_BLOCK then (s.(blocks := StoreWrite(s.blocks, x.blocks[k], Edited(b, i, rename))), true)
      else EditFrom(s, x, k + 1, n, rename, b)
  }

  /** The entries with that of inode n edited. */
  ghost function EditedEntries(es: seq<Dentry>, n: Word, rename: Option<Name>): seq<Dentry>
    requires IndexOf(es, n) < |es|
  {
    var i := IndexOf(es, n); es[i := EditedEntry(es[i], rename)]
  }

  lemma EditKeeps(g: Geometry, s: Fs, n: Word, rename: Option<Name>, buffer: Block)
    requires Inv(g, s) && s.inodes[ROOT].kind == DIRECTORY && IndexOf(RootEntries(g, s), n) < |RootEntries(g, s)|
    ensures var (s', found) := EditFrom(s, s.inodes[ROOT], 0, n, rename, buffer);
            && found && Inv(g, s') && Untouched(g, s, s', ROOT) && s'.inodes == s.inodes
            && RootEntries(g, s') == EditedEntries(RootEntries(g, s), n, rename)
  {
    var p := s.inodes[ROOT].blocks[0];
    var b := s.blocks[p];
    var i := IndexOf(Entries(b), n);
    EditedAt(b, i, rename);
    RootBlockKeeps(g, s, Edited(b, i, rename));
  }

  // ---- Removing ----

  /** fs_remove, and fs_rmdir once it has found an empty directory */
  ghost function Unlinked(g: Geometry, s: Fs, n: Word, buffer: Block): Fs
    requires Shaped(g, s) && n < g.inodes
  {
    var s1 := Removed(g, s, n);
    EditFrom(s1, s1.inodes[ROOT], 0, n, None, buffer).0
  }

  /** The place of a found name: the only entry of its inode. */
  lemma FoundIndex(g: Geometry, s: Fs, name: Name) returns (i: nat)
    requires Good(g, s) && Find(s, ROOT, name).Some?
    ensures var es, n := RootEntries(g, s), Find(s, ROOT, name).value;
            && i == IndexOf(es, n) < |es| && es[i].inode == n && es[i].name == name && 0 < n < g.inodes
            && Absent(es[i := NO_ENTRY], n)
  {
    var es := RootEntries(g, s);
    FindInRoot(g, s, name);
    FoundInode(g, s, name);
    FoundLive(es, name);
    var n := Find(s, ROOT, name).value;
    i :| 0 <= i < |es| && es[i].inode == n && es[i].name == name;
    assert forall j :: 0 <= j < |es| && j != i ==> es[j].inode != n;
    assert IndexOf(es, n) == i;
  }

  /** Removing a name drops exactly that key, frees its inode and touches no other file. */
  lemma RemoveUpdatesMap(g: Geometry, s: Fs, name: Name, buffer: Block)
    requires Good(g, s) && Find(s, ROOT, name).Some?
    ensures var n := Find(s, ROOT, name).value;
            && 0 < n < g.inodes
            && var s' := Unlinked(g, s, n, buffer);
            && Good(g, s') && OthersUntouched(g, s, s', n) && s'.inodes[n] == NO_INODE
            && (Named(RootEntries(g, s)) ==>
                  Named(RootEntries(g, s')) && AsMap(RootEntries(g, s')) == AsMap(RootEntries(g, s)) - {name})
  {
    var es := RootEntries(g, s);
    var i := FoundIndex(g, s, name);
    var n := Find(s, ROOT, name).value;
    var s1 := Removed(g, s, n);
    FileData.RemovedKeeps(g, s, n);
    UntouchedRoot(g, s, s1, n);
    EditKeeps(g, s1, n, None, buffer);
    var s' := Unlinked(g, s, n, buffer);
    TwoSteps(g, s, s1, s', n);
    ClearedGood(g, s, s', i);
    if Named(es) {
      DropEntry(es, i);
      NamedAfter(es, i, NO_ENTRY);
    }
  }

  /** The directory is in order again once the entry of the freed inode is gone. */
  lemma ClearedGood(g: Geometry, s: Fs, s': Fs, i: nat)
    requires Good(g, s) && Inv(g, s') && i < |RootEntries(g, s)| && 0 < RootEntries(g, s)[i].inode < g.inodes
    requires RootEntries(g, s') == RootEntries(g, s)[i := NO_ENTRY]
    requires OthersUntouched(g, s, s', RootEntries(g, s)[i].inode)
    requires s'.inodes[ROOT] == s.inodes[ROOT]
    ensures Good(g, s')
  {
    var es, es' := RootEntries(g, s), RootEntries(g, s');
    forall j | 0 <= j < |es'| ensures LiveEntry(g, s', es'[j]) {
      if j != i { assert LiveEntry(g, s, es[j]) && es[j].inode != es[i].inode; }
    }
  }

  // ---- Renaming ----

  /** Giving an entry another name, which no other entry has. */
  lemma RenamedEntry(es: seq<Dentry>, i: nat, e: Dentry)
    requires Named(es) && i < |es| && es[i].inode != 0 && e == es[i].(name := e.name)
    requires e.name !in AsMap(es) - {es[i].name}
    ensures Named(es[i := e]) && AsMap(es[i := e]) == (AsMap(es) - {es[i].name})[e.name := e.inode]
  {
    NamedAfter(es, i, e);
    DropEntry(es, i);
    AddEntry(es[i := NO_ENTRY], i, e);
    assert es[i := NO_ENTRY][i := e] == es[i := e];
  }

  /** What fs_rename does to the entries: one of them gets the stored form of the new name. */
  lemma RenameEntry(g: Geometry, s: Fs, name: Name, target: Name, buffer: Block) returns (s': Fs, i: nat)
    requires Good(g, s) && Find(s, ROOT, name).Some?
    ensures (s', true) == EditFrom(s, s.inodes[ROOT], 0, Find(s, ROOT, name).value, Some(target), buffer)
    ensures Good(g, s') && Untouched(g, s, s', ROOT) && s'.inodes == s.inodes && i < |RootEntries(g, s)|
    ensures RootEntries(g, s)[i].inode == Find(s, ROOT, name).value != 0 && RootEntries(g, s)[i].name == name
    ensures RootEntries(g, s') == RootEntries(g, s)[i := RootEntries(g, s)[i].(name := Cut(target))]
  {
    i := FoundIndex(g, s, name);
    var n := Find(s, ROOT, name).value;
    EditKeeps(g, s, n, Some(target), buffer);
    s' := EditFrom(s, s.inodes[ROOT], 0, n, Some(target), buffer).0;
  }

  /** fs_rename to a name that is not there replaces one key, by the stored form of the name, and touches no file. */
  lemma RenameUpdatesMap(g: Geometry, s: Fs, name: Name, target: Name, buffer: Block) returns (s': Fs)
    requires Good(g, s) && Find(s, ROOT, name).Some? && Find(s, ROOT, target) == None
    ensures (s', true) == EditFrom(s, s.inodes[ROOT], 0, Find(s, ROOT, name).value, Some(target), buffer)
    ensures Good(g, s') && Untouched(g, s, s', ROOT) && s'.inodes == s.inodes
    ensures Named(RootEntries(g, s)) && Cut(target) !in AsMap(RootEntries(g, s)) - {name} ==>
      && Named(RootEntries(g, s'))
      && AsMap(RootEntries(g, s')) == (AsMap(RootEntries(g, s)) - {name})[Cut(target) := Find(s, ROOT, name).value]
      && (Find(s', ROOT, target) == Find(s, ROOT, name) <==> |target| < NAME_SIZE)
    ensures |target| < NAME_SIZE ==> Cut(target) !in AsMap(RootEntries(g, s))
  {
    var i;
    s', i := RenameEntry(g, s, name, target, buffer);
    var es := RootEntries(g, s);
    FindInRoot(g, s, target);
    if Named(es) && Cut(target) !in AsMap(es) - {name} {
      RenamedEntry(es, i, es[i].(name := Cut(target)));
      FindInRoot(g, s', target);
    }
  }
}
