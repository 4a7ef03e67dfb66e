/** Listing a directory: fs_readdir counts live entries up to a position that each call advances by one. */
module DirList {
  import opened Bytes
  import opened BlockCache
  import opened Inodes
  import opened Dentries
  import opened FsModel
  import opened Directory
  import opened FileSystem
  import opened Wrappers

  /** The live entries of a block, in order. */
  function Live(es: seq<Dentry>): seq<Dentry> {
    if es == [] then [] else (if es[0].inode != 0 then [es[0]] else []) + Live(es[1..])
  }

  /** The blocks of a directory up to its first empty pointer; every one can be read. */
  predicate Readable(s: Fs, x: Inode, k: nat)
    decreases POINTERS - k
  {
    k >= POINTERS || x.blocks[k] == 0 || (x.blocks[k] < |s.blocks| && Readable(s, x, k + 1))
  }

  function LiveFrom(s: Fs, x: Inode, k: nat): seq<Dentry>
    requires Readable(s, x, k)
    decreases POINTERS - k
  {
    if k >= POINTERS || x.blocks[k] == 0 then [] else Live(Entries(s.blocks[x.blocks[k]])) + LiveFrom(s, x, k + 1)
  }

  // ---- The call ----

  datatype Scan = Found(entry: Dentry) | Passed(count: nat)

  /** The inner loop: the count of live entries so far either meets the position or goes on. */
  function ScanBlock(es: seq<Dentry>, count: nat, position: nat): Scan
    decreases |es|
  {
    if es == [] then Passed(count)
    else if es[0].inode == 0 then ScanBlock(es[1..], count, position)
    else if count == position then Found(es[0])
    else ScanBlock(es[1..], count + 1, position)
  }

  function ScanFrom(s: Fs, x: Inode, k: nat, count: nat, position: nat): Option<Dentry>
    requires Readable(s, x, k)
    decreases POINTERS - k
  {
    if k >= POINTERS || x.blocks[k] == 0 then None
    else
      match ScanBlock(Entries(s.blocks[x.blocks[k]]), count, position)
      case Found(e) => Some(e)
      case Passed(count') => ScanFrom(s, x, k + 1, count', position)
  }

  /** fs_readdir at a position: the entry, if there is one more. */
  function ReadDir(s: Fs, x: Inode, position: nat): Option<Dentry>
    requires Readable(s, x, 0)
  {
    if x.kind != DIRECTORY then None else ScanFrom(s, x, 0, 0, position)
  }

  lemma {:induction false} ScanBlockIsNth(es: seq<Dentry>, count: nat, position: nat)
    requires count <= position
    ensures ScanBlock(es, count, position) ==
      if position - count < |Live(es)| then Found(Live(es)[position - count]) else Passed(count + |Live(es)|)
    decreases |es|
  {
    if es != [] {
      if es[0].inode == 0 {
        ScanBlockIsNth(es[1..], count, position);
      } else if count < position {
        ScanBlockIsNth(es[1..], count + 1, position);
      }
    }
  }

  lemma {:induction false} ScanIsNth(s: Fs, x: Inode, k: nat, count: nat, position: nat)
    requires Readable(s, x, k) && count <= position
    ensures var live := LiveFrom(s, x, k);
            ScanFrom(s, x, k, count, position) ==
              if position - count < |live| then Some(live[position - count]) else None
    decreases POINTERS - k
  {
    if k < POINTERS && x.blocks[k] != 0 {
      var es := Entries(s.blocks[x.blocks[k]]);
      ScanBlockIsNth(es, count, position);
      if position - count >= |Live(es)| { ScanIsNth(s, x, k + 1, count + |Live(es)|, position); }
    }
  }

  // ---- Repeated calls ----

  /** What repeated calls from a position on return, until one reports the end. */
  function Listing(s: Fs, x: Inode, position: nat): seq<Dentry>
    requires Readable(s, x, 0) && x.kind == DIRECTORY
    decreases |LiveFrom(s, x, 0)| - position
  {
    ScanIsNth(s, x, 0, 0, position);
    match ReadDir(s, x, position)
    case None => []
    case Some(e) => [e] + Listing(s, x, position + 1)
  }

  /** The calls return every live entry once, in the order of the blocks, and nothing else. */
  lemma {:induction false} ListsAll(s: Fs, x: Inode, position: nat)
    requires Readable(s, x, 0) && x.kind == DIRECTORY && position <= |LiveFrom(s, x, 0)|
    ensures Listing(s, x, position) == LiveFrom(s, x, 0)[position..]
    decreases |LiveFrom(s, x, 0)| - position
  {
    ScanIsNth(s, x, 0, 0, position);
    if position < |LiveFrom(s, x, 0)| { ListsAll(s, x, position + 1); }
  }

  lemma {:induction false} LiveOnce(es: seq<Dentry>, e: Dentry)
    ensures e in Live(es) <==> e in es && e.inode != 0
  {
    if es != [] {
      LiveOnce(es[1..], e);
      assert es == [es[0]] + es[1..];
    }
  }

  lemma {:induction false} LiveDistinct(es: seq<Dentry>)
    requires Distinct(es)
    ensures Distinct(Live(es))
  {
    if es != [] {
      assert Distinct(es[1..]) by {
        forall i, j | 0 <= i < j < |es[1..]| && es[1..][i].inode != 0 ensures es[1..][i].inode != es[1..][j].inode {
          assert es[i + 1].inode != es[j + 1].inode;
        }
      }
      LiveDistinct(es[1..]);
      if es[0].inode != 0 {
        forall j | 0 <= j < |Live(es[1..])| ensures Live(es[1..])[j].inode != es[0].inode {
          var e := Live(es[1..])[j];
          LiveOnce(es[1..], e);
          var i :| 0 <= i < |es[1..]| && es[1..][i] == e;
          assert es[i + 1] == e;
        }
      }
    }
  }

  /** Listing the root: exactly the live entries, no inode twice. */
  lemma ListsRoot(g: Geometry, s: Fs)
    requires Good(g, s) && s.inodes[ROOT].blocks[0] != NO_BLOCK
    ensures Readable(s, s.inodes[ROOT], 0)
    ensures var list, es := Listing(s, s.inodes[ROOT], 0), RootEntries(g, s);
            Distinct(list) && forall e :: e in list <==> e in es && e.inode != 0
  {
    var x, es := s.inodes[ROOT], RootEntries(g, s);
    assert Readable(s, x, 1) && LiveFrom(s, x, 1) == [];
    ListsAll(s, x, 0);
    assert LiveFrom(s, x, 0) == Live(es);
    LiveDistinct(es);
    forall e ensures e in Live(es) <==> e in es && e.inode != 0 { LiveOnce(es, e); }
  }

  // ---- In place ----

  /** The inner loop of fs_readdir. */
  method ScanEntries(b: Block, count: nat, position: nat) returns (r: Scan)
    ensures r == ScanBlock(Entries(b), count, position)
  {
    ghost var es := Entries(b);
    ghost var result := ScanBlock(es, count, position);
    var passed := count;
    for i := 0 to PER_DIR_BLOCK
      invariant result == ScanBlock(es[i..], passed, position)
    {
      var e := EntryAt(b, i);
      assert es[i..][0] == e && es[i..][1..] == es[i + 1..];
      if e.inode != 0 {
        if passed == position {
          return Found(e);
        }
        passed := passed + 1;
      }
    }
    return Passed(passed);
  }

  lemma ScanStep(s: Fs, x: Inode, k: nat, count: nat, position: nat) returns (k': nat)
    requires Readable(s, x, k) && k < POINTERS && x.blocks[k] != 0
    ensures k' == k + 1 && Readable(s, x, k') && StoreRead(s.blocks, x.blocks[k]) == Some(s.blocks[x.blocks[k]])
    ensures var scan := ScanBlock(Entries(s.blocks[x.blocks[k]]), count, position);
            ScanFrom(s, x, k, count, position) ==
              if scan.Found? then Some(scan.entry) else ScanFrom(s, x, k', scan.count, position)
  {
    k' := k + 1;
  }

  /** The outer loop of fs_readdir. */
  method ScanBlocks(vol: Volume, x: Inode, position: nat) returns (r: Option<Dentry>)
    requires vol.Consistent() && vol.store.cached != NO_BLOCK && Readable(vol.model, x, 0)
    requires forall k :: 0 <= k < POINTERS ==> x.blocks[k] == 0 || Real(vol.g, x.blocks[k]) || x.blocks[k] == NO_BLOCK
    modifies vol.store, vol.store.data
    ensures vol.Consistent() && r == ScanFrom(vol.model, x, 0, 0, position)
  {
    ghost var result := ScanFrom(vol.model, x, 0, 0, position);
    var k, count := 0, 0;
    while k < POINTERS && x.blocks[k] != 0
      invariant k <= POINTERS && vol.Consistent() && vol.store.cached != NO_BLOCK
      invariant Readable(vol.model, x, k) && result == ScanFrom(vol.model, x, k, count, position)
    {
      ghost var k' := ScanStep(vol.model, x, k, count, position);
      var b := vol.ReadData(x.blocks[k]);
      var scan := ScanEntries(b.value, count, position);
      if scan.Found? {
        return Some(scan.entry);
      }
      k, count := k + 1, scan.count;
      assert k == k';
    }
    return None;
  }

  /** fs_readdir on inode n; the caller then advances its position. */
  method NextEntry(vol: Volume, n: Word, position: nat) returns (r: Option<Dentry>)
    requires vol.Consistent() && Inv(vol.g, vol.model) && n < vol.g.inodes
    requires Readable(vol.model, vol.model.inodes[n], 0)
    modifies vol.store, vol.store.data
    ensures vol.Consistent() && r == ReadDir(vol.model, vol.model.inodes[n], position)
  {
    var inode := vol.ReadInode(n);
    if inode.value.kind != DIRECTORY {
      return None;
    }
    r := ScanBlocks(vol, inode.value, position);
  }
}
