/** fs_format and fs_mount: what a formatted device holds, and the session that starts from it. */
module Mount {
  import opened Bytes
  import opened BlockCache
  import opened Bitmap
  import opened Inodes
  import opened Dentries
  import opened FsModel
  import opened Directory
  import opened FileSystem
  import opened FsRuns
  import opened Wrappers
  import Session

  function Filled(v: Byte): Block { seq(BLOCK_SIZE, _ => v) }

  /** The device after the optional erasure, which fills every block with one byte value. */
  function Erased(disk: seq<Block>, erase: Option<Byte>): (d: seq<Block>)
    ensures |d| == |disk|
  {
    match erase case None => disk case Some(v) => seq(|disk|, _ => Filled(v))
  }

  /** The only block of the inode table that fs_format writes: the root, and zeros. */
  function RootBlock(root: Inode): Block { Splice(Zeros(), 0, Encode(root)) }

  /** fs_format: erasure, then the superblock, the bitmap and the first block of the inode table. */
  function Format(disk: seq<Block>, erase: Option<Byte>, super: Block, bitmap: Block, root: Inode): (d: seq<Block>)
    requires |disk| > TABLE_START
    ensures |d| == |disk|
  {
    Erased(disk, erase)[0 := super][1 := bitmap][TABLE_START := RootBlock(root)]
  }

  /** The file system that a device stands for right after a format, with these blocks in use. */
  ghost function Represented(g: Geometry, disk: seq<Block>, used: set<nat>): Fs
    requires Sound(g) && |disk| == g.total
  {
    Fs(seq(g.inodes, n requires 0 <= n < g.inodes => TableBelow(g, n); InodeAt(disk, n)), disk, used, g.total - g.first)
  }

  lemma RepresentsDisk(g: Geometry, disk: seq<Block>, used: set<nat>)
    requires Sound(g) && |disk| == g.total
    ensures Represents(g, disk, Represented(g, disk, used))
  {
    var fs := Represented(g, disk, used);
    forall n | 0 <= n < g.inodes ensures Holds(disk, n, fs.inodes[n]) { TableBelow(g, n); }
  }

  // ---- The inodes of a formatted device ----

  /** An inode of bytes that are all the same. */
  lemma FilledInode(v: Byte, at: nat)
    requires at + INODE_SIZE <= BLOCK_SIZE
    ensures var x := Decode(Filled(v)[at..at + INODE_SIZE]);
            x.kind == v && forall k :: 0 <= k < POINTERS ==> x.blocks[k] == 0x101_0101 * v
  {
    var s := Filled(v)[at..at + INODE_SIZE];
    assert forall i :: 0 <= i < INODE_SIZE ==> s[i] == v;
    var ws := GetWords(s[4..], 9);
    forall k | 0 <= k < 9 ensures ws[k] == 0x101_0101 * v { assert ws[k] == GetWord(s[4..], 4 * k); }
  }

  /** No pointer that could be taken for a data block. */
  predicate Blank(x: Inode) { forall k :: 0 <= k < POINTERS ==> x.blocks[k] == 0 || x.blocks[k] == NO_BLOCK }

  ghost predicate CleanAt(disk: seq<Block>, n: nat) { TableBlock(n) < |disk| && Blank(InodeAt(disk, n)) }

  /** The inodes that a format does not write are blank. */
  ghost predicate Clean(g: Geometry, disk: seq<Block>) { forall n :: PER_BLOCK <= n < g.inodes ==> CleanAt(disk, n) }

  /** No pointer at all. */
  predicate Empty(x: Inode) { forall k :: 0 <= k < POINTERS ==> x.blocks[k] == 0 }

  /** The inode of an empty directory. */
  predicate NewRoot(root: Inode) { root.kind == DIRECTORY && Empty(root) }

  lemma DecodeFront(b: Block, y: Inode, s: seq<Byte>)
    requires s == Splice(b, 0, Encode(y))[0..INODE_SIZE]
    ensures Decode(s) == y
  {
    assert s == Encode(y);
    EncodeThenDecode(y);
  }

  lemma RootInode(root: Inode, s: seq<Byte>, x: Inode)
    requires NewRoot(root) && s == RootBlock(root)[0..INODE_SIZE] && x == Decode(s)
    ensures Empty(x) && x.kind == DIRECTORY
  {
    DecodeFront(Zeros(), root, s);
  }

  lemma RestInode(root: Inode, at: nat, s: seq<Byte>, x: Inode)
    requires INODE_SIZE <= at && at + INODE_SIZE <= BLOCK_SIZE && s == RootBlock(root)[at..at + INODE_SIZE]
    requires x == Decode(s)
    ensures Empty(x) && x.kind == FREE
  {
    SpliceApart(Zeros(), 0, Encode(root), at, INODE_SIZE);
    assert Zeros() == Filled(0);
    FilledInode(0, at);
  }

  /** The first block of the table after a format: the root, and eleven empty inodes. */
  lemma FirstInodes(d: seq<Block>, root: Inode, n: nat, x: Inode)
    requires NewRoot(root) && TABLE_START < |d| && d[TABLE_START] == RootBlock(root) && n < PER_BLOCK && Holds(d, n, x)
    ensures Empty(x) && x.kind == if n == ROOT then DIRECTORY else FREE
  {
    var at, s := InodeBytes(d, n, x);
    if n == ROOT { RootInode(root, s, x); } else { RestInode(root, at, s, x); }
  }

  lemma InodeBytes(d: seq<Block>, n: nat, x: Inode) returns (at: nat, s: seq<Byte>)
    requires TABLE_START < |d| && n < PER_BLOCK && Holds(d, n, x)
    ensures at == INODE_SIZE * n && at + INODE_SIZE <= BLOCK_SIZE
    ensures s == d[TABLE_START][at..at + INODE_SIZE] && x == Decode(s)
  {
    at := TableOffset(n);
    s := d[TABLE_START][at..at + INODE_SIZE];
  }

  /** The other blocks of the table are as the erasure left them. */
  lemma OtherInodes(disk: seq<Block>, erase: Option<Byte>, super: Block, bitmap: Block, root: Inode, n: nat)
    requires TABLE_START < |disk| && PER_BLOCK <= n && TableBlock(n) < |disk|
    ensures InodeAt(Format(disk, erase, super, bitmap, root), n) == InodeAt(Erased(disk, erase), n)
  {
    assert TableBlock(n) > TABLE_START;
  }

  /** One inode of the formatted file system. */
  lemma FormatInode(g: Geometry, disk: seq<Block>, erase: Option<Byte>, super: Block, bitmap: Block, root: Inode,
      n: nat, x: Inode)
    requires NewRoot(root) && Sound(g) && |disk| == g.total && n < g.inodes
    requires Holds(Format(disk, erase, super, bitmap, root), n, x)
    ensures if n < PER_BLOCK then Empty(x) && (n == ROOT ==> x.kind == DIRECTORY)
            else (Blank(x) <==> CleanAt(Erased(disk, erase), n))
  {
    TableBelow(g, n);
    if n < PER_BLOCK {
      FirstInodes(Format(disk, erase, super, bitmap, root), root, n, x);
    } else {
      OtherInodes(disk, erase, super, bitmap, root, n);
    }
  }

  lemma FormatInodes(g: Geometry, disk: seq<Block>, erase: Option<Byte>, super: Block, bitmap: Block, root: Inode,
      fs: Fs)
    requires NewRoot(root) && Sound(g) && |disk| == g.total
    requires Represents(g, Format(disk, erase, super, bitmap, root), fs)
    ensures fs.inodes[ROOT].kind == DIRECTORY && forall n :: 0 <= n < g.inodes && n < PER_BLOCK ==> Empty(fs.inodes[n])
    ensures forall n :: PER_BLOCK <= n < g.inodes ==> (Blank(fs.inodes[n]) <==> CleanAt(Erased(disk, erase), n))
  {
    forall n | 0 <= n < g.inodes
      ensures if n < PER_BLOCK then Empty(fs.inodes[n]) && (n == ROOT ==> fs.inodes[n].kind == DIRECTORY)
              else (Blank(fs.inodes[n]) <==> CleanAt(Erased(disk, erase), n))
    {
      assert Holds(Format(disk, erase, super, bitmap, root), n, fs.inodes[n]);
      FormatInode(g, disk, erase, super, bitmap, root, n, fs.inodes[n]);
    }
  }

  lemma FormattedIff(g: Geometry, fs: Fs)
    requires Shaped(g, fs) && fs.inodes[ROOT].kind == DIRECTORY && fs.free == g.total - g.first
    requires forall b :: b in fs.used <==> 0 <= b < g.first
    requires forall n :: 0 <= n < g.inodes && n < PER_BLOCK ==> Empty(fs.inodes[n])
    ensures Formatted(g, fs) <==> forall n :: PER_BLOCK <= n < g.inodes ==> Blank(fs.inodes[n])
  {
  }

  /** fs_format leaves a well-formed, empty file system if and only if the rest of the inode table was clean. */
  lemma FormatIffClean(g: Geometry, disk: seq<Block>, erase: Option<Byte>, super: Block, bitmap: Block, root: Inode,
      used: set<nat>)
    returns (fs: Fs)
    requires NewRoot(root) && Sound(g) && |disk| == g.total && forall b :: b in used <==> 0 <= b < g.first
    ensures fs.used == used && fs.free == g.total - g.first
    ensures Represents(g, Format(disk, erase, super, bitmap, root), fs)
    ensures Formatted(g, fs) <==> Clean(g, Erased(disk, erase))
  {
    var d := Format(disk, erase, super, bitmap, root);
    fs := Represented(g, d, used);
    RepresentsDisk(g, d, used);
    FormatInodes(g, disk, erase, super, bitmap, root, fs);
    FormattedIff(g, fs);
  }

  /** A device that erases to zeros or to ones is clean; with more than twelve inodes no other erasure is. */
  lemma ErasedIsClean(g: Geometry, disk: seq<Block>, v: Byte)
    requires Sound(g) && |disk| == g.total
    ensures Clean(g, Erased(disk, Some(v))) <==> g.inodes <= PER_BLOCK || v == 0 || v == 0xFF
  {
    var d := Erased(disk, Some(v));
    forall n | 0 <= n < g.inodes ensures CleanAt(d, n) <==> v == 0 || v == 0xFF {
      TableBelow(g, n);
      FilledInode(v, TableOffset(n));
      assert InodeAt(d, n).blocks[0] == 0x101_0101 * v;
    }
    assert g.inodes > PER_BLOCK && Clean(g, d) ==> CleanAt(d, PER_BLOCK);
  }

  // ---- The session ----

  /**
   * Formats a device and mounts it: the session that starts is sane, and its directory is empty. The model follows
   * `inodes` inodes, as many as fit below the data area, of the `inodeCount` that the calls take the table to have.
   */
  method FormatAndMount(disk: seq<Block>, erase: Option<Byte>, super: Block, bitmap: Block, root: Inode,
                        first: nat, total: nat, inodeCount: nat, ghost inodes: nat)
    returns (session: Session.Mounted)
    requires NewRoot(root) && Sound(Geometry(total, first, inodes)) && inodes <= inodeCount && |disk| == total
    requires Clean(Geometry(total, first, inodes), Erased(disk, erase))
    ensures fresh(session) && session.Valid() && session.vol.g == Geometry(total, first, inodes)
    ensures session.vol.inodeCount == inodeCount
    ensures Formatted(session.vol.g, session.vol.model) && RootEntries(session.vol.g, session.vol.model) == []
  {
    ghost var g := Geometry(total, first, inodes);
    var d := Format(disk, erase, super, bitmap, root);
    var store := new Store(d);
    var alloc := new Allocator(first, total);
    ghost var fs := FormatIffClean(g, disk, erase, super, bitmap, root, Used(alloc.bits[..]));
    var vol := MountVolume(store, alloc, g, inodeCount, fs);
    session := new Session.Mounted(vol);
    FormatSane(g, session.State());
  }

  method MountVolume(store: Store, alloc: Allocator, ghost g: Geometry, inodeCount: nat, ghost fs: Fs)
    returns (vol: Volume)
    requires store.data != alloc.bits && store.data.Length == BLOCK_SIZE && store.cached == NO_BLOCK && !store.dirty
    requires |store.disk| < NO_BLOCK && alloc.Valid() && alloc.first == g.first && alloc.total == g.total
    requires g.inodes <= inodeCount && fs.used == Used(alloc.bits[..]) && fs.free == alloc.free
    requires Represents(g, store.disk, fs)
    ensures fresh(vol) && vol.Consistent() && vol.g == g && vol.model == fs && vol.inodeCount == inodeCount
  {
    vol := new Volume(store, alloc, g, inodeCount, fs);
  }
}
