/**
 * The file system on values: a table of inodes, the data blocks, and the set of used blocks. The inode of a file that
 * an operation is working on is kept in the table; an operation that does not save it puts the old one back.
 */
module FsModel {
  import opened Bytes
  import opened BlockCache
  import opened Bitmap
  import opened Inodes

  const MAX_SIZE := POINTERS * BLOCK_SIZE
  function Zeros(): Block { seq(BLOCK_SIZE, _ => 0) }
  const NO_INODE := Inode(FREE, 0, 0, 0, [0, 0, 0, 0, 0, 0], 0, 0)

  datatype Geometry = Geometry(total: nat, first: nat, inodes: nat)

  /** The inode table fits below the data area and the bitmap covers the device. */
  predicate Sound(g: Geometry) {
    0 < g.inodes && Fits(g.inodes, g.first) && TABLE_START < g.first <= g.total <= MAX_BLOCKS
  }

  datatype Fs = Fs(inodes: seq<Inode>, blocks: seq<Block>, used: set<nat>, free: int)

  predicate Shaped(g: Geometry, s: Fs) { Sound(g) && |s.inodes| == g.inodes && |s.blocks| == g.total }

  predicate Real(g: Geometry, p: Word) { g.first <= p < g.total }

  ghost function Unused(g: Geometry, used: set<nat>): set<nat> { set b | g.first <= b < g.total && b !in used }

  /** Every pointer is empty, the out-of-space mark, or a data block that is marked used. */
  ghost predicate Owned(g: Geometry, s: Fs)
    requires Shaped(g, s)
  {
    forall n, k :: 0 <= n < g.inodes && 0 <= k < POINTERS ==>
      var p := s.inodes[n].blocks[k]; p == 0 || p == NO_BLOCK || (Real(g, p) && p in s.used)
  }

  /** No data block belongs to two pointers. */
  ghost predicate Unshared(g: Geometry, s: Fs)
    requires Shaped(g, s)
  {
    forall n, k, m, j ::
      (0 <= n < g.inodes && 0 <= k < POINTERS && 0 <= m < g.inodes && 0 <= j < POINTERS
       && Real(g, s.inodes[n].blocks[k]) && s.inodes[n].blocks[k] == s.inodes[m].blocks[j]) ==> n == m && k == j
  }

  ghost predicate Inv(g: Geometry, s: Fs) {
    && Shaped(g, s) && Owned(g, s) && Unshared(g, s)
    && s.free == |Unused(g, s.used)|
  }

  // ---- Blocks ----

  function WithNode(s: Fs, n: nat, x: Inode): Fs
    requires n < |s.inodes|
  {
    s.(inodes := s.inodes[n := x])
  }

  function SetPointer(x: Inode, k: nat, p: Word): Inode
    requires k < POINTERS
  {
    x.(blocks := x.blocks[k := p])
  }

  /** fs_alloc_block */
  ghost function Alloc(g: Geometry, s: Fs): (Fs, Word)
    requires Shaped(g, s)
  {
    var b := FirstFree(s.used, g.first, g.total);
    (if b == NO_BLOCK then s else s.(used := s.used + {b}, free := s.free - 1), b)
  }

  /** fs_free_block */
  ghost function Freed(g: Geometry, s: Fs, p: Word): Fs {
    if p < g.total then s.(used := s.used - {p}, free := s.free + 1) else s
  }

  lemma AllocKeeps(g: Geometry, s: Fs, n: nat, k: nat)
    requires Inv(g, s) && n < g.inodes && k < POINTERS && s.inodes[n].blocks[k] == 0
    ensures var (s1, b) := Alloc(g, s); Inv(g, WithNode(s1, n, SetPointer(s.inodes[n], k, b)))
  {
    var (s1, b) := Alloc(g, s);
    if b != NO_BLOCK {
      assert Unused(g, s.used) == Unused(g, s1.used) + {b};
    }
  }

  /** Giving back one pointer's block, whatever the pointer is. */
  lemma FreeKeeps(g: Geometry, s: Fs, n: nat, k: nat)
    requires Inv(g, s) && n < g.inodes && k < POINTERS && s.inodes[n].blocks[k] != 0
    ensures Inv(g, WithNode(Freed(g, s, s.inodes[n].blocks[k]), n, SetPointer(s.inodes[n], k, 0)))
  {
    var p := s.inodes[n].blocks[k];
    var s1 := Freed(g, s, p);
    if p != NO_BLOCK {
      assert Unused(g, s1.used) == Unused(g, s.used) + {p};
    }
  }

  /** Saving an inode with no pointer that the old one did not have. */
  lemma NodeKeeps(g: Geometry, s: Fs, n: nat, x: Inode)
    requires Inv(g, s) && n < g.inodes
    requires forall k :: 0 <= k < POINTERS ==> x.blocks[k] == 0 || x.blocks[k] == s.inodes[n].blocks[k]
    ensures Inv(g, WithNode(s, n, x))
  {
  }

  /** Frees the blocks of pointers k and up, and empties them. */
  ghost function Release(g: Geometry, s: Fs, n: nat, k: nat): (s': Fs)
    requires n < |s.inodes|
    ensures |s'.inodes| == |s.inodes| && s'.blocks == s.blocks
    decreases POINTERS - k
  {
    if k >= POINTERS then s
    else
      var x := s.inodes[n];
      if x.blocks[k] == 0 then Release(g, s, n, k + 1)
      else Release(g, WithNode(Freed(g, s, x.blocks[k]), n, SetPointer(x, k, 0)), n, k + 1)
  }

  lemma {:induction false} ReleaseKeeps(g: Geometry, s: Fs, n: nat, k: nat)
    requires Inv(g, s) && n < g.inodes
    ensures var s' := Release(g, s, n, k);
            && Inv(g, s') && s'.blocks == s.blocks
            && s' == WithNode(s, n, s.inodes[n].(blocks := s'.inodes[n].blocks)).(used := s'.used, free := s'.free)
            && forall j :: 0 <= j < POINTERS ==> s'.inodes[n].blocks[j] == if j < k then s.inodes[n].blocks[j] else 0
    decreases POINTERS - k
  {
    if k < POINTERS {
      var x := s.inodes[n];
      if x.blocks[k] == 0 {
        ReleaseKeeps(g, s, n, k + 1);
      } else {
        FreeKeeps(g, s, n, k);
        ReleaseKeeps(g, WithNode(Freed(g, s, x.blocks[k]), n, SetPointer(x, k, 0)), n, k + 1);
      }
    }
  }

  // ---- File operations on inode n ----

  /** The number of blocks that fs_truncate keeps, computed in 32 bits. */
  function PointersFor(size: Word): nat { (size + BLOCK_SIZE - 1) % 0x1_0000_0000 / BLOCK_SIZE }

  /** fs_truncate */
  ghost function Truncated(g: Geometry, s: Fs, n: nat, size: Word, now: Word): Fs
    requires n < |s.inodes|
  {
    var s1 := if size < s.inodes[n].size then Release(g, s, n, PointersFor(size)) else s;
    WithNode(s1, n, s1.inodes[n].(size := size, mtime := now))
  }

  /** fs_open with FS_O_TRUNC */
  ghost function Emptied(g: Geometry, s: Fs, n: nat): Fs
    requires n < |s.inodes|
  {
    if s.inodes[n].size == 0 then s
    else var s1 := Release(g, s, n, 0); WithNode(s1, n, s1.inodes[n].(size := 0))
  }

  /** fs_free_inode */
  ghost function Removed(g: Geometry, s: Fs, n: nat): Fs
    requires n < |s.inodes|
  {
    WithNode(Release(g, s, n, 0), n, NO_INODE)
  }

  function Fresh(kind: Byte, now: Word): Inode { NO_INODE.(kind := kind, mtime := now, ctime := now) }

  /** Gives an empty pointer a block; a real one is zeroed first. */
  ghost function Grown(g: Geometry, s: Fs, n: nat, k: nat): Fs
    requires Shaped(g, s) && n < g.inodes && k < POINTERS
  {
    var (s1, b) := Alloc(g, s);
    WithNode(s1.(blocks := StoreWrite(s.blocks, b, Zeros())), n, SetPointer(s.inodes[n], k, b))
  }

  /** Read-modify-write of part of a block; a block that does not exist stays so. */
  function Patched(s: Fs, p: Word, at: nat, data: seq<Byte>): Fs
    requires at + |data| <= BLOCK_SIZE
  {
    if p < |s.blocks| then s.(blocks := s.blocks[p := Splice(s.blocks[p], at, data)]) else s
  }

  function Chunk(pos: nat, n: nat): (c: nat)
    ensures c <= n && pos % BLOCK_SIZE + c <= BLOCK_SIZE && (n > 0 ==> c > 0)
  {
    if BLOCK_SIZE - pos % BLOCK_SIZE > n then n else BLOCK_SIZE - pos % BLOCK_SIZE
  }

  /**
   * One round of fs_write: a chunk of at most a block, into the block that holds the position, or a new one.
   * If none is to be had the pointer becomes the out-of-space mark and nothing else happens.
   */
  ghost function Round(g: Geometry, s: Fs, n: nat, pos: nat, chunk: seq<Byte>): Fs
    requires Shaped(g, s) && n < g.inodes && pos / BLOCK_SIZE < POINTERS && pos % BLOCK_SIZE + |chunk| <= BLOCK_SIZE
  {
    var k := pos / BLOCK_SIZE;
    var s1 := if s.inodes[n].blocks[k] == 0 then Grown(g, s, n, k) else s;
    Patched(s1, s1.inodes[n].blocks[k], pos % BLOCK_SIZE, chunk)
  }

  /** The loop of fs_write from position pos: the state and the position at which it stops. */
  ghost function WriteFrom(g: Geometry, s: Fs, n: nat, pos: nat, data: seq<Byte>): (Fs, nat)
    requires Shaped(g, s) && n < g.inodes
    decreases |data|
  {
    var k, c := pos / BLOCK_SIZE, Chunk(pos, |data|);
    if data == [] || k >= POINTERS then (s, pos)
    else
      var s1 := Round(g, s, n, pos, data[..c]);
      if s.inodes[n].blocks[k] == 0 && s1.inodes[n].blocks[k] == NO_BLOCK then (s1, pos)
      else WriteFrom(g, s1, n, pos + c, data[c..])
  }

  /** fs_write on inode n: the inode is saved only when the file grew. */
  ghost function Written(g: Geometry, s: Fs, n: nat, pos: Word, data: seq<Byte>, now: Word): (Fs, nat)
    requires Shaped(g, s) && n < g.inodes
  {
    var (s1, end) := WriteFrom(g, s, n, pos, data);
    WriteFromShape(g, s, n, pos, data);
    var x := s1.inodes[n];
    (if end > x.size then WithNode(s1, n, x.(size := end, mtime := now)) else WithNode(s1, n, s.inodes[n]), end)
  }

  lemma {:induction false} WriteFromShape(g: Geometry, s: Fs, n: nat, pos: nat, data: seq<Byte>)
    requires Shaped(g, s) && n < g.inodes
    ensures var (s', end) := WriteFrom(g, s, n, pos, data);
            Shaped(g, s') && pos <= end && (end <= pos || end <= MAX_SIZE) && end <= pos + |data|
    decreases |data|
  {
    var c := Chunk(pos, |data|);
    if data != [] && pos / BLOCK_SIZE < POINTERS {
      WriteFromShape(g, Round(g, s, n, pos, data[..c]), n, pos + c, data[c..]);
    }
  }
}
