/** The mounted file system in place: cache, bitmap and inode table together represent the file system on values. */
module FileSystem {
  import opened Bytes
  import opened BlockCache
  import opened Bitmap
  import opened Inodes
  import opened Dentries
  import opened FsModel
  import opened FileData
  import opened Directory
  import opened Wrappers

  ghost predicate Holds(view: seq<Block>, n: nat, x: Inode) { TableBlock(n) < |view| && InodeAt(view, n) == x }

  /** The blocks hold the inodes of the model in their table, and its data blocks. */
  ghost predicate Represents(g: Geometry, view: seq<Block>, m: Fs) {
    && Shaped(g, m) && |view| == g.total
    && (forall n {:trigger Holds(view, n, m.inodes[n])} :: 0 <= n < g.inodes ==> Holds(view, n, m.inodes[n]))
    && (forall b :: g.first <= b < g.total ==> view[b] == m.blocks[b])
  }

  /** The bitmap is not part of the device's blocks. */
  lemma SameTables(g: Geometry, view: seq<Block>, m: Fs, m': Fs)
    requires Represents(g, view, m) && m'.inodes == m.inodes && m'.blocks == m.blocks
    ensures Represents(g, view, m')
  {
  }

  lemma TableBelow(g: Geometry, n: nat)
    requires Sound(g) && n < g.inodes
    ensures TABLE_START <= TableBlock(n) < g.first <= g.total
  {
  }

  lemma InodeWritten(g: Geometry, view: seq<Block>, m: Fs, n: nat, x: Inode)
    requires Represents(g, view, m) && n < g.inodes
    ensures TableBlock(n) < |view| && Represents(g, WithInode(view, n, x), WithNode(m, n, x))
  {
    TableBelow(g, n);
    var view', m' := WithInode(view, n, x), WithNode(m, n, x);
    forall j | 0 <= j < g.inodes ensures Holds(view', j, m'.inodes[j]) {
      assert Holds(view, j, m.inodes[j]);
      WithInodeAt(view, n, x, j);
    }
  }

  lemma BlockWritten(g: Geometry, view: seq<Block>, m: Fs, p: Word, b: Block)
    requires Represents(g, view, m) && (Real(g, p) || p == NO_BLOCK)
    ensures Represents(g, StoreWrite(view, p, b), m.(blocks := StoreWrite(m.blocks, p, b)))
    ensures StoreRead(view, p) == StoreRead(m.blocks, p)
  {
    var view', m' := StoreWrite(view, p, b), m.(blocks := StoreWrite(m.blocks, p, b));
    forall j | 0 <= j < g.inodes ensures Holds(view', j, m'.inodes[j]) {
      TableBelow(g, j);
      assert Holds(view, j, m.inodes[j]);
    }
  }

  /** One round of fs_write on values: where the rest of the loop starts. */
  lemma WriteStep(g: Geometry, v: Fs, n: nat, at: nat, data: seq<Byte>) returns (v1: Fs, at': nat, rest: seq<Byte>)
    requires Inv(g, v) && n < g.inodes && data != [] && at / BLOCK_SIZE < POINTERS
    ensures v1 == Round(g, v, n, at, data[..Chunk(at, |data|)]) && Inv(g, v1)
    ensures at' == at + Chunk(at, |data|) && rest == data[Chunk(at, |data|)..]
    ensures WriteFrom(g, v, n, at, data) ==
      if v.inodes[n].blocks[at / BLOCK_SIZE] == 0 && v1.inodes[n].blocks[at / BLOCK_SIZE] == NO_BLOCK then (v1, at)
      else WriteFrom(g, v1, n, at', rest)
  {
    var c := Chunk(at, |data|);
    AnyRoundKeeps(g, v, n, at, data[..c]);
    v1, at', rest := Round(g, v, n, at, data[..c]), at + c, data[c..];
  }

  /** Linking with the root's new inode still in a local copy. */
  lemma LinkAtNode(m: Fs, x: Inode, name: Name, n: Word, kind: Byte, buffer: Block)
    requires |m.inodes| > 0
    ensures var b := BlockRead(m, x.blocks[0], buffer);
            var i := IndexOf(Entries(b), 0);
            var blocks := StoreWrite(m.blocks, x.blocks[0],
                                     if i < PER_DIR_BLOCK then WithEntry(b, i, name, n, kind) else b);
            LinkAt(WithNode(m, ROOT, x), name, n, kind, buffer)
              == (WithNode(m.(blocks := blocks), ROOT, Enlarged(x)), i < PER_DIR_BLOCK)
  {
    NodeTwice(m, ROOT, x, Enlarged(x));
  }

  lemma SizeKept(g: Geometry, m: Fs, n: nat, pos: nat, data: seq<Byte>)
    requires Inv(g, m) && n < g.inodes
    ensures var s := WriteFrom(g, m, n, pos, data).0; n < |s.inodes| && s.inodes[n].size == m.inodes[n].size
  {
    WriteFromKeeps(g, m, n, pos, data);
  }

  /** One round of the search for an entry, on values. */
  lemma EditStep(m: Fs, x: Inode, k: nat, n: Word, rename: Option<Name>, buffer: Block, b: Block) returns (k': nat)
    requires k < POINTERS && x.blocks[k] != 0 && b == BlockRead(m, x.blocks[k], buffer)
    ensures k' == k + 1
    ensures var i := IndexOf(Entries(b), n);
            EditFrom(m, x, k, n, rename, buffer) ==
              if i < PER_DIR_BLOCK then (m.(blocks := StoreWrite(m.blocks, x.blocks[k], Edited(b, i, rename))), true)
              else EditFrom(m, x, k', n, rename, b)
  {
    k' := k + 1;
  }

  lemma NodeTwice(m: Fs, n: nat, x: Inode, y: Inode)
    requires n < |m.inodes|
    ensures WithNode(WithNode(m, n, x), n, y) == WithNode(m, n, y)
  {
  }

  lemma NodeSame(m: Fs, n: nat)
    requires n < |m.inodes|
    ensures WithNode(m, n, m.inodes[n]) == m
  {
  }

  // ---- Scanning the entries of one block ----

  method FindName(b: Block, name: Name) returns (r: Option<Word>)
    ensures r == FindIn(Entries(b), name)
  {
    ghost var es := Entries(b);
    ghost var result := FindIn(es, name);
    for i := 0 to PER_DIR_BLOCK
      invariant result == FindIn(es[i..], name)
    {
      var e := EntryAt(b, i);
      assert es[i..][0] == e && es[i..][1..] == es[i + 1..];
      if e.inode != 0 && e.name == name {
        return Some(e.inode);
      }
    }
    return None;
  }

  /** The first entry of inode n; free entries are those of inode 0. */
  method FindInode(b: Block, n: Word) returns (i: nat)
    ensures i == IndexOf(Entries(b), n)
  {
    ghost var es := Entries(b);
    i := 0;
    while i < PER_DIR_BLOCK && EntryAt(b, i).inode != n
      invariant i <= PER_DIR_BLOCK && forall j :: 0 <= j < i ==> es[j].inode != n
    {
      i := i + 1;
    }
    IndexOfIs(es, n, i);
  }

  class Volume {
    const store: Store
    const alloc: Allocator
    ghost const g: Geometry
    const inodeCount: nat
    ghost var model: Fs

    /** Cache, bitmap and table represent the model. */
    ghost predicate Consistent()
      reads this, store, store.data, alloc, alloc.bits
    {
      && store.data != alloc.bits && store.data.Length == BLOCK_SIZE && BlockCache.Valid(store.Value())
      && alloc.Valid() && alloc.first == g.first && alloc.total == g.total && g.inodes <= inodeCount
      && model.used == Used(alloc.bits[..]) && model.free == alloc.free
      && Represents(g, View(store.Value()), model)
    }

    /**
     * The search for a free inode stays in the part of the table that the model describes: that is the whole table,
     * or an inode in it is free.
     */
    ghost predicate Spare()
      reads this
    {
      inodeCount == g.inodes || Directory.FreeInode(model, 0) != NO_BLOCK
    }

    /** A session on a device and a bitmap that represent a file system. */
    constructor (store: Store, alloc: Allocator, ghost g: Geometry, inodeCount: nat, ghost model: Fs)
      requires store.data != alloc.bits && store.data.Length == BLOCK_SIZE && BlockCache.Valid(store.Value())
      requires alloc.Valid() && alloc.first == g.first && alloc.total == g.total && g.inodes <= inodeCount
      requires model.used == Used(alloc.bits[..]) && model.free == alloc.free
      requires Represents(g, View(store.Value()), model)
      ensures Consistent() && this.store == store && this.alloc == alloc && this.g == g && this.model == model
      ensures this.inodeCount == inodeCount
    {
      this.store, this.alloc, this.g, this.inodeCount, this.model := store, alloc, g, inodeCount, model;
    }

    method ReadInode(n: Word) returns (x: Option<Inode>)
      requires Consistent() && (n < g.inodes || inodeCount <= n)
      modifies store, store.data
      ensures Consistent()
      ensures x == if n < g.inodes then Some(model.inodes[n]) else None
      ensures n < g.inodes ==> store.cached != NO_BLOCK
    {
      if n >= inodeCount {
        return None;
      }
      TableBelow(g, n);
      ReadTransparent(store.Value(), TableBlock(n));
      var buffer := store.ReadBlock(TableBlock(n));
      var at := TableOffset(n);
      assert Holds(View(store.Value()), n, model.inodes[n]);
      return Some(Decode(buffer.value[at..at + INODE_SIZE]));
    }

    method Sync()
      requires Consistent()
      modifies store
      ensures Consistent() && store.disk == View(old(store.Value()))
    {
      SyncTransparent(store.Value());
      store.SyncCache();
    }

    method WriteInode(n: Word, x: Inode) returns (ok: bool)
      requires Consistent() && (n < g.inodes || inodeCount <= n)
      modifies this, store, store.data
      ensures Consistent() && ok == (n < g.inodes) && (ok ==> store.cached != NO_BLOCK)
      ensures model == if ok then WithNode(old(model), n, x) else old(model)
    {
      if n >= inodeCount {
        return false;
      }
      TableBelow(g, n);
      var at := TableOffset(n);
      ghost var view := View(store.Value());
      ReadTransparent(store.Value(), TableBlock(n));
      var buffer := store.ReadBlock(TableBlock(n));
      var block := Splice(buffer.value, at, Encode(x));
      WriteTransparent(store.Value(), TableBlock(n), block);
      ok := store.WriteBlock(TableBlock(n), block);
      InodeWritten(g, view, model, n, x);
      model := WithNode(model, n, x);
    }

    /** fs_read_block of a data pointer. */
    method ReadData(p: Word) returns (b: Option<Block>)
      requires Consistent() && (Real(g, p) || p == NO_BLOCK) && store.cached != NO_BLOCK
      modifies store, store.data
      ensures Consistent() && store.cached != NO_BLOCK && b == StoreRead(model.blocks, p)
    {
      ReadTransparent(store.Value(), p);
      BlockWritten(g, View(store.Value()), model, p, Zeros());
      b := store.ReadBlock(p);
    }

    /** fs_write_block of a data pointer. */
    method WriteData(p: Word, b: Block)
      requires Consistent() && (Real(g, p) || p == NO_BLOCK) && store.cached != NO_BLOCK
      modifies this, store, store.data
      ensures Consistent() && store.cached != NO_BLOCK
      ensures model == old(model).(blocks := StoreWrite(old(model).blocks, p, b))
    {
      WriteTransparent(store.Value(), p, b);
      BlockWritten(g, View(store.Value()), model, p, b);
      var _ := store.WriteBlock(p, b);
      model := model.(blocks := StoreWrite(model.blocks, p, b));
    }

    method AllocBlock() returns (b: Word)
      requires Consistent()
      modifies this, alloc, alloc.bits
      ensures Consistent() && (model, b) == Alloc(g, old(model))
    {
      ghost var m := model;
      SameTables(g, View(store.Value()), m, Alloc(g, m).0);
      b := alloc.AllocBlock();
      model := Alloc(g, m).0;
    }

    method FreeBlock(p: Word)
      requires Consistent()
      modifies this, alloc, alloc.bits
      ensures Consistent() && model == Freed(g, old(model), p)
    {
      SameTables(g, View(store.Value()), model, Freed(g, model, p));
      var _ := alloc.FreeBlock(p);
      model := Freed(g, model, p);
    }

    // ---- Reading and writing files ----

    /** One round of fs_read: what the block buffer then holds. */
    method NextBlock(x: Inode, k: nat, block: Block) returns (next: Block)
      requires Consistent() && store.cached != NO_BLOCK && k < POINTERS
      requires Real(g, x.blocks[k]) || x.blocks[k] == NO_BLOCK
      modifies store, store.data
      ensures Consistent() && store.cached != NO_BLOCK && next == BlockRead(model, x.blocks[k], block)
    {
      var b := ReadData(x.blocks[k]);
      next := if b.Some? then b.value else block;
    }

    /** The loop of fs_read. */
    method ReadLoop(x: Inode, pos: nat, len: nat, buffer: Block) returns (out: seq<Byte>)
      requires Consistent() && store.cached != NO_BLOCK
      requires forall k :: 0 <= k < POINTERS ==> x.blocks[k] == 0 || Real(g, x.blocks[k]) || x.blocks[k] == NO_BLOCK
      modifies store, store.data
      ensures Consistent() && out == ReadFrom(model, x, pos, len, buffer)
    {
      var at: nat, left: nat, block := pos, len, buffer;
      ghost var rest := ReadFrom(model, x, at, left, block);
      ghost var whole := rest;
      out := [];
      while left > 0
        invariant Consistent() && store.cached != NO_BLOCK
        invariant rest == ReadFrom(model, x, at, left, block) && out + rest == whole
      {
        if at / BLOCK_SIZE >= POINTERS || x.blocks[at / BLOCK_SIZE] == 0 {
          break;
        }
        var i, c := at % BLOCK_SIZE, Chunk(at, left);
        var next := NextBlock(x, at / BLOCK_SIZE, block);
        ghost var at', left', rest' := ReadStep(model, x, at, left, block, next);
        Regroup(out, next[i..i + c], rest');
        block, out, at, left, rest := next, out + next[i..i + c], at + c, left - c, rest';
        assert at == at' && left == left';
      }
      assert rest == [];
    }

    /** fs_read on inode n; `buffer` is the block buffer, not yet initialised. */
    method ReadFile(n: Word, pos: Word, len: nat, buffer: Block) returns (out: seq<Byte>)
      requires Consistent() && Inv(g, model) && n < g.inodes
      modifies store, store.data
      ensures Consistent() && out == ReadBytes(model, n, pos, len, buffer)
    {
      var inode := ReadInode(n);
      var x := inode.value;
      out := ReadLoop(x, pos, Available(x, pos, len), buffer);
    }

    /** Gives pointer k of the local inode x of file n a block, zeroed if there was one to be had. */
    method Grow(ghost n: nat, x: Inode, k: nat) returns (x': Inode)
      requires Consistent() && n < g.inodes && k < POINTERS && store.cached != NO_BLOCK
      modifies this, store, store.data, alloc, alloc.bits
      ensures Consistent() && store.cached != NO_BLOCK && model.inodes == old(model).inodes
      ensures WithNode(model, n, x') == Grown(g, WithNode(old(model), n, x), n, k)
      ensures Real(g, x'.blocks[k]) || x'.blocks[k] == NO_BLOCK
    {
      var b := AllocBlock();
      x' := SetPointer(x, k, b);
      if b != NO_BLOCK {
        WriteData(b, Zeros());
      }
    }

    /** Read-modify-write of part of a data block. */
    method PatchBlock(p: Word, at: nat, data: seq<Byte>, buffer: Block)
      requires Consistent() && (Real(g, p) || p == NO_BLOCK) && at + |data| <= BLOCK_SIZE && store.cached != NO_BLOCK
      modifies this, store, store.data
      ensures Consistent() && store.cached != NO_BLOCK && model == Patched(old(model), p, at, data)
    {
      var b := ReadData(p);
      WriteData(p, Splice(if b.Some? then b.value else buffer, at, data));
    }

    /** One round of fs_write, with the inode x of file n not yet saved. */
    method WriteRound(ghost n: nat, x: Inode, at: nat, chunk: seq<Byte>, buffer: Block) returns (x': Inode, stuck: bool)
      requires Consistent() && store.cached != NO_BLOCK && n < g.inodes && Inv(g, WithNode(model, n, x))
      requires at / BLOCK_SIZE < POINTERS && at % BLOCK_SIZE + |chunk| <= BLOCK_SIZE
      modifies this, store, store.data, alloc, alloc.bits
      ensures Consistent() && store.cached != NO_BLOCK && model.inodes == old(model).inodes
      ensures WithNode(model, n, x') == Round(g, WithNode(old(model), n, x), n, at, chunk)
      ensures stuck == (x.blocks[at / BLOCK_SIZE] == 0 && x'.blocks[at / BLOCK_SIZE] == NO_BLOCK)
    {
      var k := at / BLOCK_SIZE;
      ghost var v := WithNode(model, n, x);
      assert v.inodes[n].blocks[k] == x.blocks[k];
      x', stuck := x, false;
      if x.blocks[k] == 0 {
        x' := Grow(n, x, k);
        stuck := x'.blocks[k] == NO_BLOCK;
      }
      if !stuck {
        PatchBlock(x'.blocks[k], at % BLOCK_SIZE, chunk, buffer);
      }
    }

    /** The loop of fs_write. */
    method WriteLoop(ghost n: nat, x0: Inode, pos: nat, data: seq<Byte>, buffer: Block) returns (x: Inode, at: nat)
      requires Consistent() && store.cached != NO_BLOCK && n < g.inodes && Inv(g, WithNode(model, n, x0))
      modifies this, store, store.data, alloc, alloc.bits
      ensures Consistent() && store.cached != NO_BLOCK && model.inodes == old(model).inodes
      ensures (WithNode(model, n, x), at) == WriteFrom(g, WithNode(old(model), n, x0), n, pos, data)
    {
      ghost var v := WithNode(model, n, x0);
      ghost var result := WriteFrom(g, v, n, pos, data);
      var todo := data;
      x, at := x0, pos;
      while todo != [] && at / BLOCK_SIZE < POINTERS
        invariant Consistent() && store.cached != NO_BLOCK && model.inodes == old(model).inodes
        invariant v == WithNode(model, n, x) && Inv(g, v) && result == WriteFrom(g, v, n, at, todo)
        decreases |todo|
      {
        var c := Chunk(at, |todo|);
        ghost var v', at', rest := WriteStep(g, v, n, at, todo);
        var stuck;
        x, stuck := WriteRound(n, x, at, todo[..c], buffer);
        v := v';
        if stuck {
          return;
        }
        at, todo := at + c, todo[c..];
        assert at == at' && todo == rest;
      }
    }

    /** fs_write on inode n: returns the new position, and whether the file grew. */
    method WriteFile(n: Word, pos: Word, data: seq<Byte>, now: Word, buffer: Block) returns (end: nat, grew: bool)
      requires Consistent() && Inv(g, model) && n < g.inodes
      modifies this, store, store.data, alloc, alloc.bits
      ensures Consistent() && (model, end) == Written(g, old(model), n, pos, data, now)
      ensures grew == (end > old(model).inodes[n].size)
    {
      var inode := ReadInode(n);
      var x0 := inode.value;
      NodeSame(model, n);
      WriteFromShape(g, model, n, pos, data);
      var x;
      x, end := WriteLoop(n, x0, pos, data, buffer);
      NodeTwice(model, n, x, x0);
      NodeSame(model, n);
      SizeKept(g, old(model), n, pos, data);
      grew := end > x.size;
      if grew {
        NodeTwice(model, n, x, x.(size := end, mtime := now));
        var _ := WriteInode(n, x.(size := end, mtime := now));
      }
    }

    // ---- Giving blocks and inodes back ----

    /** Frees the blocks of pointers k and up of the local inode x of file n. */
    method ReleaseFrom(ghost n: nat, x: Inode, k: nat) returns (x': Inode)
      requires Consistent() && n < g.inodes
      modifies this, alloc, alloc.bits
      ensures Consistent() && model.inodes == old(model).inodes
      ensures WithNode(model, n, x') == Release(g, WithNode(old(model), n, x), n, k)
    {
      var i := k;
      x' := x;
      ghost var v := WithNode(model, n, x);
      ghost var result := Release(g, v, n, k);
      while i < POINTERS
        invariant Consistent() && model.inodes == old(model).inodes
        invariant v == WithNode(model, n, x') && result == Release(g, v, n, i)
      {
        if x'.blocks[i] != 0 {
          FreeBlock(x'.blocks[i]);
          x' := SetPointer(x', i, 0);
          v := WithNode(Freed(g, v, v.inodes[n].blocks[i]), n, SetPointer(v.inodes[n], i, 0));
          assert v == WithNode(model, n, x');
        }
        i := i + 1;
      }
    }

    /** fs_truncate on inode n. */
    method TruncateFile(n: Word, size: Word, now: Word)
      requires Consistent() && n < g.inodes
      modifies this, store, store.data, alloc, alloc.bits
      ensures Consistent() && model == Truncated(g, old(model), n, size, now)
    {
      var inode := ReadInode(n);
      var x := inode.value;
      NodeSame(model, n);
      if size < x.size {
        x := ReleaseFrom(n, x, PointersFor(size));
      }
      NodeTwice(model, n, x, x.(size := size, mtime := now));
      var _ := WriteInode(n, x.(size := size, mtime := now));
    }

    /** The truncation of fs_open. */
    method EmptyFile(n: Word)
      requires Consistent() && n < g.inodes
      modifies this, store, store.data, alloc, alloc.bits
      ensures Consistent() && model == Emptied(g, old(model), n)
    {
      var inode := ReadInode(n);
      var x := inode.value;
      NodeSame(model, n);
      if x.size > 0 {
        x := ReleaseFrom(n, x, 0);
        NodeTwice(model, n, x, x.(size := 0));
        var _ := WriteInode(n, x.(size := 0));
      }
    }

    method FreeInode(n: Word)
      requires Consistent() && n < g.inodes
      modifies this, store, store.data, alloc, alloc.bits
      ensures Consistent() && model == Removed(g, old(model), n)
    {
      var inode := ReadInode(n);
      NodeSame(model, n);
      var x := ReleaseFrom(n, inode.value, 0);
      NodeTwice(model, n, x, NO_INODE);
      var _ := WriteInode(n, NO_INODE);
    }

    method IsFree(n: Word) returns (free: bool)
      requires Consistent() && n < g.inodes
      modifies store, store.data
      ensures Consistent() && free == (model.inodes[n].kind == FREE)
    {
      var inode := ReadInode(n);
      free := inode.value.kind == FREE;
    }

    method AllocInode() returns (n: Word)
      requires Consistent() && Spare()
      modifies store, store.data
      ensures Consistent() && n == Directory.FreeInode(model, 0)
    {
      FewInodes(g);
      ghost var result := Directory.FreeInode(model, 0);
      for i := 0 to inodeCount
        invariant Consistent() && i <= g.inodes && result == Directory.FreeInode(model, i)
      {
        var free := IsFree(i);
        if free {
          return i;
        }
      }
      return NO_BLOCK;
    }

    // ---- The directory ----

    /** One round of fs_find_in_dir: a block that cannot be read is passed over. */
    method FindInBlock(p: Word, name: Name) returns (r: Option<Word>)
      requires Consistent() && store.cached != NO_BLOCK && (Real(g, p) || p == NO_BLOCK)
      modifies store, store.data
      ensures Consistent() && store.cached != NO_BLOCK
      ensures r == match StoreRead(model.blocks, p) case None => None case Some(b) => FindIn(Entries(b), name)
    {
      var b := ReadData(p);
      if b.Some? {
        r := FindName(b.value, name);
      } else {
        r := None;
      }
    }

    method FindInBlocks(x: Inode, name: Name) returns (r: Option<Word>)
      requires Consistent() && store.cached != NO_BLOCK
      requires forall k :: 0 <= k < POINTERS ==> x.blocks[k] == 0 || Real(g, x.blocks[k]) || x.blocks[k] == NO_BLOCK
      modifies store, store.data
      ensures Consistent() && r == FindFrom(model, x, 0, name)
    {
      ghost var result := FindFrom(model, x, 0, name);
      var k := 0;
      while k < POINTERS && x.blocks[k] != 0
        invariant k <= POINTERS && Consistent() && store.cached != NO_BLOCK && result == FindFrom(model, x, k, name)
      {
        r := FindInBlock(x.blocks[k], name);
        if r.Some? {
          return;
        }
        k := k + 1;
      }
      return None;
    }

    /** fs_find_in_dir */
    method FindInDir(n: Word, name: Name) returns (r: Option<Word>)
      requires Consistent() && Inv(g, model) && n < g.inodes
      modifies store, store.data
      ensures Consistent() && r == Find(model, n, name)
    {
      var inode := ReadInode(n);
      if inode.value.kind != DIRECTORY {
        return None;
      }
      r := FindInBlocks(inode.value, name);
    }

    /** Reads one directory block and edits the entry of inode n, if it is there. */
    method EditBlock(p: Word, n: Word, rename: Option<Name>, buffer: Block) returns (found: bool, block: Block)
      requires Consistent() && (Real(g, p) || p == NO_BLOCK) && store.cached != NO_BLOCK
      modifies this, store, store.data
      ensures Consistent() && store.cached != NO_BLOCK && block == BlockRead(old(model), p, buffer)
      ensures found == (IndexOf(Entries(block), n) < PER_DIR_BLOCK)
      ensures model == if !found then old(model) else
        old(model).(blocks := StoreWrite(old(model).blocks, p, Edited(block, IndexOf(Entries(block), n), rename)))
    {
      var b := ReadData(p);
      block := if b.Some? then b.value else buffer;
      var i := FindInode(block, n);
      found := i < PER_DIR_BLOCK;
      if found {
        WriteData(p, Edited(block, i, rename));
      }
    }

    /** Looks for the entry of inode n in the blocks of a directory, and clears or renames it. */
    method EditBlocks(x: Inode, n: Word, rename: Option<Name>, buffer: Block) returns (found: bool)
      requires Consistent() && store.cached != NO_BLOCK
      requires forall k :: 0 <= k < POINTERS ==> x.blocks[k] == 0 || Real(g, x.blocks[k]) || x.blocks[k] == NO_BLOCK
      modifies this, store, store.data
      ensures Consistent() && (model, found) == EditFrom(old(model), x, 0, n, rename, buffer)
    {
      ghost var result := EditFrom(model, x, 0, n, rename, buffer);
      var k, block := 0, buffer;
      while k < POINTERS && x.blocks[k] != 0
        invariant k <= POINTERS && Consistent() && store.cached != NO_BLOCK && model == old(model)
        invariant result == EditFrom(model, x, k, n, rename, block)
      {
        ghost var before := block;
        found, block := EditBlock(x.blocks[k], n, rename, block);
        ghost var k' := EditStep(old(model), x, k, n, rename, before, block);
        if found {
          return;
        }
        k := k + 1;
        assert k == k';
      }
      return false;
    }

    /** The same in the root directory. */
    method EditEntry(n: Word, rename: Option<Name>, buffer: Block) returns (found: bool)
      requires Consistent() && Inv(g, model)
      modifies this, store, store.data
      ensures Consistent() && (model, found) == EditFrom(old(model), old(model).inodes[ROOT], 0, n, rename, buffer)
    {
      var inode := ReadInode(ROOT);
      found := EditBlocks(inode.value, n, rename, buffer);
    }

    /** The root's inode, given a block in its local copy if it has none. */
    method RootWithBlock() returns (x: Inode)
      requires Consistent()
      modifies this, store, store.data, alloc, alloc.bits
      ensures Consistent() && store.cached != NO_BLOCK && model.inodes == old(model).inodes
      ensures WithNode(model, ROOT, x) == RootGrown(g, old(model))
      ensures old(model).inodes[ROOT].blocks[0] == 0 ==> Real(g, x.blocks[0]) || x.blocks[0] == NO_BLOCK
      ensures old(model).inodes[ROOT].blocks[0] != 0 ==> x == old(model).inodes[ROOT]
    {
      var inode := ReadInode(ROOT);
      x := inode.value;
      NodeSame(model, ROOT);
      if x.blocks[0] == 0 {
        x := Grow(ROOT, x, 0);
      }
    }

    /** Puts an entry into the first free place of the directory block p. */
    method AddToBlock(p: Word, name: Name, n: Word, kind: Byte, buffer: Block, always: bool) returns (linked: bool)
      requires Consistent() && store.cached != NO_BLOCK && (Real(g, p) || p == NO_BLOCK)
      modifies this, store, store.data
      ensures Consistent() && store.cached != NO_BLOCK
      ensures var b := BlockRead(old(model), p, buffer); var i := IndexOf(Entries(b), 0);
              && linked == (i < PER_DIR_BLOCK)
              && model == if !linked && !always then old(model) else
                 old(model).(blocks :=
                   StoreWrite(old(model).blocks, p, if linked then WithEntry(b, i, name, n, kind) else b))
    {
      var read := ReadData(p);
      var b: Block := if read.Some? then read.value else buffer;
      var i := FindInode(b, 0);
      linked := i < PER_DIR_BLOCK;
      if linked {
        WriteData(p, WithEntry(b, i, name, n, kind));
      } else if always {
        WriteData(p, b);
      }
    }

    /** Links inode n into the root; with `always` the root is saved even if no place was found, as fs_open does. */
    method LinkEntry(name: Name, n: Word, kind: Byte, buffer: Block, always: bool) returns (linked: bool)
      requires Consistent() && Inv(g, model)
      modifies this, store, store.data, alloc, alloc.bits
      ensures Consistent() && linked == Link(g, old(model), name, n, kind, buffer).1
      ensures model == if linked || always then Link(g, old(model), name, n, kind, buffer).0
                       else WithNode(RootGrown(g, old(model)), ROOT, old(model).inodes[ROOT])
    {
      var x := RootWithBlock();
      LinkAtNode(model, x, name, n, kind, buffer);
      NodeTwice(model, ROOT, x, model.inodes[ROOT]);
      NodeSame(model, ROOT);
      linked := AddToBlock(x.blocks[0], name, n, kind, buffer, always);
      if linked || always {
        var _ := WriteInode(ROOT, Enlarged(x));
      }
    }
  }
}
