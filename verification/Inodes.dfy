/** Inodes: their 40-byte layout, and the table that packs twelve of them into each block. */
module Inodes {
  import opened Bytes
  import opened BlockCache

  const POINTERS := 6
  const INODE_SIZE := 40
  const PER_BLOCK := 12
  const TABLE_START := 2

  const FREE: Byte := 0
  const REGULAR: Byte := 1
  const DIRECTORY: Byte := 2

  type Pointers = p: seq<Word> | |p| == POINTERS witness [0, 0, 0, 0, 0, 0]

  datatype Inode = Inode(kind: Byte, flags: Byte, reserved: Half, size: Word, blocks: Pointers, mtime: Word,
    ctime: Word)

  // ---- Words in a row ----

  function PutWords(ws: seq<Word>): (s: seq<Byte>)
    ensures |s| == 4 * |ws|
  {
    seq(4 * |ws|, j requires 0 <= j < 4 * |ws| => PutWord(ws[j / 4])[j % 4])
  }

  function GetWords(s: seq<Byte>, n: nat): (ws: seq<Word>)
    requires |s| == 4 * n
    ensures |ws| == n
  {
    seq(n, k requires 0 <= k < n => GetWord(s, 4 * k))
  }

  lemma PutThenGetWords(ws: seq<Word>)
    ensures GetWords(PutWords(ws), |ws|) == ws
  {
    var s := PutWords(ws);
    forall k | 0 <= k < |ws| ensures GetWord(s, 4 * k) == ws[k] {
      assert s[4 * k..4 * k + 4] == PutWord(ws[k]);
      GetWordSame(s, 4 * k, PutWord(ws[k]), 0);
      PutThenGet(ws[k]);
    }
  }

  // ---- One inode ----

  /** Everything after the first four bytes. */
  function Tail(x: Inode): seq<Word> { [x.size] + x.blocks + [x.mtime, x.ctime] }

  function Encode(x: Inode): (s: seq<Byte>)
    ensures |s| == INODE_SIZE
  {
    [x.kind, x.flags, x.reserved % 0x100, x.reserved / 0x100] + PutWords(Tail(x))
  }

  function Decode(s: seq<Byte>): Inode
    requires |s| == INODE_SIZE
  {
    var lo: int, hi: int := s[2], s[3];
    var ws := GetWords(s[4..], 9);
    Inode(s[0], s[1], lo + 0x100 * hi, ws[0], ws[1..7], ws[7], ws[8])
  }

  lemma EncodeThenDecode(x: Inode)
    ensures Decode(Encode(x)) == x
  {
    var ws := Tail(x);
    PutThenGetWords(ws);
    assert Encode(x)[4..] == PutWords(ws);
    assert ws[1..7] == x.blocks;
  }

  lemma WordBehind(head: seq<Byte>, s: seq<Byte>, at: nat)
    requires |head| == 4 && at + 4 <= |s|
    ensures GetWord(head + s, 4 + at) == GetWord(s, at)
  {
    assert (head + s)[4 + at..4 + at + 4] == s[at..at + 4];
    GetWordSame(head + s, 4 + at, s, at);
  }

  lemma WordOf(ws: seq<Word>, s: seq<Byte>, k: nat)
    requires s == PutWords(ws) && k < |ws|
    ensures GetWord(s, 4 * k) == ws[k]
  {
    PutThenGetWords(ws);
    assert GetWords(s, |ws|)[k] == GetWord(s, 4 * k);
  }

  lemma FieldAt(x: Inode, s: seq<Byte>, k: nat, at: nat)
    requires k < 9 && s == Encode(x) && at == 4 + 4 * k
    ensures GetWord(s, at) == Tail(x)[k]
  {
    var tail := PutWords(Tail(x));
    WordOf(Tail(x), tail, k);
    WordBehind([x.kind, x.flags, x.reserved % 0x100, x.reserved / 0x100], tail, 4 * k);
  }

  lemma TailPointer(x: Inode, k: nat)
    requires k < POINTERS
    ensures Tail(x)[k + 1] == x.blocks[k]
  {
  }

  lemma PointerAt(x: Inode, s: seq<Byte>, k: nat)
    requires k < POINTERS && s == Encode(x)
    ensures GetWord(s, 8 + 4 * k) == x.blocks[k]
  {
    FieldAt(x, s, k + 1, 8 + 4 * k);
    TailPointer(x, k);
  }

  /** Where the fields of an inode are in its 40 bytes. */
  lemma InodeLayout(x: Inode, s: seq<Byte>)
    requires s == Encode(x)
    ensures s[0] == x.kind && s[1] == x.flags && GetWord(s, 4) == x.size
    ensures forall k :: 0 <= k < POINTERS ==> GetWord(s, 8 + 4 * k) == x.blocks[k]
    ensures GetWord(s, 32) == x.mtime && GetWord(s, 36) == x.ctime
  {
    FieldAt(x, s, 0, 4);
    FieldAt(x, s, 7, 32);
    FieldAt(x, s, 8, 36);
    forall k | 0 <= k < POINTERS ensures GetWord(s, 8 + 4 * k) == x.blocks[k] { PointerAt(x, s, k); }
  }

  // ---- The table ----

  function TableBlock(n: nat): nat { TABLE_START + n / PER_BLOCK }

  function TableOffset(n: nat): (at: nat)
    ensures at + INODE_SIZE <= BLOCK_SIZE
  {
    n % PER_BLOCK * INODE_SIZE
  }

  function Splice(b: Block, at: nat, s: seq<Byte>): Block
    requires at + |s| <= BLOCK_SIZE
  {
    b[..at] + s + b[at + |s|..]
  }

  /** fs_read_inode, on the blocks that the cache stands for */
  function InodeAt(view: seq<Block>, n: nat): Inode
    requires TableBlock(n) < |view|
  {
    Decode(view[TableBlock(n)][TableOffset(n)..TableOffset(n) + INODE_SIZE])
  }

  /** fs_write_inode */
  function WithInode(view: seq<Block>, n: nat, x: Inode): seq<Block>
    requires TableBlock(n) < |view|
  {
    view[TableBlock(n) := Splice(view[TableBlock(n)], TableOffset(n), Encode(x))]
  }

  lemma SpliceApart(b: Block, at: nat, s: seq<Byte>, other: nat, n: nat)
    requires at + |s| <= BLOCK_SIZE && other + n <= BLOCK_SIZE && (other + n <= at || at + |s| <= other)
    ensures Splice(b, at, s)[other..other + n] == b[other..other + n]
  {
  }

  /** Writing inode n reads back as written and leaves every other inode alone. */
  lemma WithInodeAt(view: seq<Block>, n: nat, x: Inode, m: nat)
    requires TableBlock(n) < |view| && TableBlock(m) < |view|
    ensures InodeAt(WithInode(view, n, x), m) == if m == n then x else InodeAt(view, m)
  {
    var b, at := view[TableBlock(n)], TableOffset(n);
    if m == n {
      assert Splice(b, at, Encode(x))[at..at + INODE_SIZE] == Encode(x);
      EncodeThenDecode(x);
    } else if TableBlock(m) == TableBlock(n) {
      SpliceApart(b, at, Encode(x), TableOffset(m), INODE_SIZE);
    }
  }

  /** The table of n inodes lies below block `first`. */
  predicate Fits(n: nat, first: nat) { n > 0 ==> TableBlock(n - 1) < first }

  /**
   * What fs_format lays out: its byte-wise sizing leaves room for exactly the inodes below 120, so the table of
   * 128 inodes that it announces runs into the first data block.
   */
  lemma FormatLayout()
    ensures var first := TABLE_START + (128 * INODE_SIZE + BLOCK_SIZE - 1) / BLOCK_SIZE;
            first == 12 && !Fits(128, first) && forall n: nat :: Fits(n, first) <==> n <= 120
  {
  }

  /** Writing any of the inodes 120 to 127 changes the first data block, unless it is already there. */
  lemma InodePastTable(view: seq<Block>, n: nat, x: Inode)
    requires 120 <= n < 128 && |view| > 12
    ensures TableBlock(n) == 12 && (WithInode(view, n, x)[12] == view[12] ==> InodeAt(view, n) == x)
    ensures forall b :: 0 <= b < |view| && b != 12 ==> WithInode(view, n, x)[b] == view[b]
  {
    WithInodeAt(view, n, x, n);
  }
}
