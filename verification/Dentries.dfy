/** Directory entries: eight of 64 bytes in a block, each a name field of 32 bytes, an inode number and a type. */
module Dentries {
  import opened Bytes
  import opened BlockCache
  import opened Inodes

  const ENTRY_SIZE := 64
  const PER_DIR_BLOCK := 8
  const NAME_SIZE := 32

  /** A C string: bytes without a terminator among them. */
  type Name = s: seq<Byte> | 0 !in s

  datatype Dentry = Dentry(name: Name, inode: Word, kind: Byte)

  const NO_ENTRY := Dentry([], 0, 0)

  /** The C string that a field holds. */
  function CString(field: seq<Byte>): Name {
    if field == [] || field[0] == 0 then [] else [field[0]] + CString(field[1..])
  }

  /** What strncpy leaves in a name field: at most 31 bytes, padded with zeros. */
  function NameField(name: Name): (field: seq<Byte>)
    ensures |field| == NAME_SIZE
  {
    seq(NAME_SIZE, i requires 0 <= i < NAME_SIZE => if i < |name| && i < NAME_SIZE - 1 then name[i] else 0)
  }

  /** The name as it is stored. */
  function Cut(name: Name): Name {
    if |name| < NAME_SIZE then name else name[..NAME_SIZE - 1]
  }

  lemma {:induction false} CStringOf(field: seq<Byte>, name: Name)
    requires |name| < |field| && field[..|name|] == name && field[|name|] == 0
    ensures CString(field) == name
  {
    if name != [] {
      assert field[0] == name[0] && name[0] in name;
      assert field[1..][..|name| - 1] == name[1..];
      CStringOf(field[1..], name[1..]);
    }
  }

  lemma StoredName(name: Name)
    ensures CString(NameField(name)) == Cut(name)
  {
    CStringOf(NameField(name), Cut(name));
  }

  function EntryAt(b: Block, i: nat): Dentry
    requires i < PER_DIR_BLOCK
  {
    var e := b[i * ENTRY_SIZE..i * ENTRY_SIZE + ENTRY_SIZE];
    Dentry(CString(e[..NAME_SIZE]), GetWord(e, NAME_SIZE), e[NAME_SIZE + 4])
  }

  function Entries(b: Block): (es: seq<Dentry>)
    ensures |es| == PER_DIR_BLOCK
  {
    seq(PER_DIR_BLOCK, i requires 0 <= i < PER_DIR_BLOCK => EntryAt(b, i))
  }

  /** Name, inode number and type are set; the rest of the entry keeps its bytes. */
  function WithEntry(b: Block, i: nat, name: Name, inode: Word, kind: Byte): Block
    requires i < PER_DIR_BLOCK
  {
    Splice(b, i * ENTRY_SIZE, NameField(name) + PutWord(inode) + [kind])
  }

  function WithName(b: Block, i: nat, name: Name): Block
    requires i < PER_DIR_BLOCK
  {
    Splice(b, i * ENTRY_SIZE, NameField(name))
  }

  function Cleared(b: Block, i: nat): Block
    requires i < PER_DIR_BLOCK
  {
    Splice(b, i * ENTRY_SIZE, seq(ENTRY_SIZE, _ => 0))
  }

  /** A change inside entry i leaves the other entries alone. */
  lemma SpliceEntry(b: Block, i: nat, s: seq<Byte>, j: nat)
    requires i < PER_DIR_BLOCK && j < PER_DIR_BLOCK && i != j && |s| <= ENTRY_SIZE
    ensures EntryAt(Splice(b, i * ENTRY_SIZE, s), j) == EntryAt(b, j)
  {
    SpliceApart(b, i * ENTRY_SIZE, s, j * ENTRY_SIZE, ENTRY_SIZE);
  }

  lemma NewEntry(b: Block, at: nat, name: seq<Byte>, inode: seq<Byte>, kind: Byte, e: seq<Byte>)
    requires at + ENTRY_SIZE <= BLOCK_SIZE && |name| == NAME_SIZE && |inode| == 4
    requires e == Splice(b, at, name + inode + [kind])[at..at + ENTRY_SIZE]
    ensures e[..NAME_SIZE] == name && e[NAME_SIZE..NAME_SIZE + 4] == inode[0..4] && e[NAME_SIZE + 4] == kind
  {
    var s := name + inode + [kind];
    forall j | 0 <= j < |s| ensures e[j] == s[j] { assert e[j] == Splice(b, at, s)[at + j]; }
  }

  lemma WithEntryAt(b: Block, i: nat, name: Name, inode: Word, kind: Byte)
    requires i < PER_DIR_BLOCK
    ensures Entries(WithEntry(b, i, name, inode, kind)) == Entries(b)[i := Dentry(Cut(name), inode, kind)]
  {
    var s := NameField(name) + PutWord(inode) + [kind];
    var b' := Splice(b, i * ENTRY_SIZE, s);
    var e := b'[i * ENTRY_SIZE..i * ENTRY_SIZE + ENTRY_SIZE];
    NewEntry(b, i * ENTRY_SIZE, NameField(name), PutWord(inode), kind, e);
    StoredName(name);
    GetWordSame(e, NAME_SIZE, PutWord(inode), 0);
    PutThenGet(inode);
    forall j | 0 <= j < PER_DIR_BLOCK && j != i ensures EntryAt(b', j) == EntryAt(b, j) { SpliceEntry(b, i, s, j); }
  }

  /** Where the fields of an entry are in its block; no other byte changes. */
  lemma EntryLayout(b: Block, i: nat, name: Name, inode: Word, kind: Byte)
    requires i < PER_DIR_BLOCK
    ensures var b', at := WithEntry(b, i, name, inode, kind), 64 * i;
            && (forall j :: 0 <= j < 32 ==> b'[at + j] == if j < |name| && j < 31 then name[j] else 0)
            && GetWord(b', at + 32) == inode && b'[at + 36] == kind
            && forall j :: 0 <= j < BLOCK_SIZE && !(at <= j < at + 37) ==> b'[j] == b[j]
  {
    var b', s, at := WithEntry(b, i, name, inode, kind), NameField(name) + PutWord(inode) + [kind], 64 * i;
    assert forall j :: 0 <= j < |s| ==> b'[at + j] == s[j];
    assert b'[at + 32..at + 36] == PutWord(inode)[0..4];
    GetWordSame(b', at + 32, PutWord(inode), 0);
    PutThenGet(inode);
  }

  lemma NewName(b: Block, at: nat, s: seq<Byte>, e: seq<Byte>, e': seq<Byte>)
    requires at + ENTRY_SIZE <= BLOCK_SIZE && |s| == NAME_SIZE
    requires e == b[at..at + ENTRY_SIZE] && e' == Splice(b, at, s)[at..at + ENTRY_SIZE]
    ensures e'[..NAME_SIZE] == s && e'[NAME_SIZE..NAME_SIZE + 4] == e[NAME_SIZE..NAME_SIZE + 4]
    ensures e'[NAME_SIZE + 4] == e[NAME_SIZE + 4]
  {
    forall j | 0 <= j < ENTRY_SIZE ensures e'[j] == if j < NAME_SIZE then s[j] else e[j] {
      assert e'[j] == Splice(b, at, s)[at + j];
    }
  }

  lemma WithNameAt(b: Block, i: nat, name: Name)
    requires i < PER_DIR_BLOCK
    ensures Entries(WithName(b, i, name)) == Entries(b)[i := EntryAt(b, i).(name := Cut(name))]
  {
    var s := NameField(name);
    var b' := Splice(b, i * ENTRY_SIZE, s);
    var e, e' := b[i * ENTRY_SIZE..i * ENTRY_SIZE + ENTRY_SIZE], b'[i * ENTRY_SIZE..i * ENTRY_SIZE + ENTRY_SIZE];
    NewName(b, i * ENTRY_SIZE, s, e, e');
    StoredName(name);
    GetWordSame(e', NAME_SIZE, e, NAME_SIZE);
    forall j | 0 <= j < PER_DIR_BLOCK && j != i ensures EntryAt(b', j) == EntryAt(b, j) { SpliceEntry(b, i, s, j); }
  }

  lemma ClearedAt(b: Block, i: nat)
    requires i < PER_DIR_BLOCK
    ensures Entries(Cleared(b, i)) == Entries(b)[i := NO_ENTRY]
  {
    var s: seq<Byte> := seq(ENTRY_SIZE, _ => 0);
    var b' := Splice(b, i * ENTRY_SIZE, s);
    assert b'[i * ENTRY_SIZE..i * ENTRY_SIZE + ENTRY_SIZE] == s;
    forall j | 0 <= j < PER_DIR_BLOCK && j != i ensures EntryAt(b', j) == EntryAt(b, j) { SpliceEntry(b, i, s, j); }
  }
}
