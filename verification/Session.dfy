/** The calls of the file system in place: file handles over a mounted volume, each call as the model has it. */
module Session {
  import opened Bytes
  import opened BlockCache
  import opened Inodes
  import opened Dentries
  import opened FsModel
  import opened FileData
  import opened Directory
  import opened FileSystem
  import opened FsRuns
  import opened Wrappers

  class Mounted {
    const vol: Volume
    var files: seq<Handle>

    constructor (vol: Volume)
      requires vol.Consistent()
      ensures this.vol == vol && |files| == MAX_OPEN_FILES && forall i :: 0 <= i < MAX_OPEN_FILES ==> !files[i].inUse
    {
      this.vol := vol;
      files := seq(MAX_OPEN_FILES, _ => Handle(false, 0, Flags(false, false, false, false, false), 0, 0));
    }

    ghost function State(): System
      reads this, vol
    {
      System(vol.model, files)
    }

    ghost predicate Valid()
      reads this, vol, vol.store, vol.store.data, vol.alloc, vol.alloc.bits
    {
      vol.Consistent() && Sane(vol.g, State())
    }

    /** fs_open; returns the handle, or -1. */
    method Open(path: Name, flags: Flags, now: Word, buffer: Block) returns (fd: int)
      requires Valid() && (flags.create && Find(vol.model, ROOT, FileName(path)) == None ==> vol.Spare())
      modifies this, vol, vol.store, vol.store.data, vol.alloc, vol.alloc.bits
      ensures vol.Consistent() && State() == Opened(vol.g, old(State()), path, flags, now, buffer)
      ensures if fd == -1 then files == old(files) else fd == FreeHandle(old(files)) && ValidFd(State(), fd)
    {
      var free := FindHandle();
      if free == |files| {
        return -1;
      }
      LocatedGood(vol.g, vol.model, FileName(path), flags.create, now, buffer);
      var n := Locate(FileName(path), flags.create, now, buffer);
      if n == NO_BLOCK {
        return -1;
      }
      if flags.trunc {
        vol.EmptyFile(n);
      }
      var inode := vol.ReadInode(n);
      var size := inode.value.size;
      files := files[free := Handle(true, n, flags, if flags.append then size else 0, size)];
      return free;
    }

    method FindHandle() returns (i: nat)
      ensures i == FreeHandle(files)
    {
      i := 0;
      ghost var result := FreeHandle(files);
      assert files[0..] == files;
      while i < |files| && files[i].inUse
        invariant i <= |files| && result == i + FreeHandle(files[i..])
      {
        assert files[i..][1..] == files[i + 1..];
        i := i + 1;
      }
    }

    /** The inode of a name, created if it is not there and that was asked for. */
    method Locate(name: Name, create: bool, now: Word, buffer: Block) returns (n: Word)
      requires vol.Consistent() && Good(vol.g, vol.model)
      requires create && Find(vol.model, ROOT, name) == None ==> vol.Spare()
      modifies vol, vol.store, vol.store.data, vol.alloc, vol.alloc.bits
      ensures vol.Consistent() && (vol.model, n) == Located(vol.g, old(vol.model), name, create, now, buffer)
    {
      var found := vol.FindInDir(ROOT, name);
      if found.Some? {
        return found.value;
      }
      if !create {
        return NO_BLOCK;
      }
      var linked;
      n, linked := Create(name, REGULAR, now, buffer, true);
    }

    /** A new inode and its entry; with `always` the directory is saved even if there is no place for the entry. */
    method Create(name: Name, kind: Byte, now: Word, buffer: Block, always: bool) returns (n: Word, linked: bool)
      requires vol.Consistent() && vol.Spare() && Good(vol.g, vol.model) && kind != FREE
      modifies vol, vol.store, vol.store.data, vol.alloc, vol.alloc.bits
      ensures vol.Consistent() && n == FreeInode(old(vol.model), 0)
      ensures linked == Created(vol.g, old(vol.model), name, kind, now, buffer).2
      ensures n == NO_BLOCK || linked || always ==>
        vol.model == Created(vol.g, old(vol.model), name, kind, now, buffer).0
      ensures n != NO_BLOCK && !linked && !always ==>
        var m := WithNode(old(vol.model), n, Fresh(kind, now));
        vol.model == WithNode(RootGrown(vol.g, m), ROOT, m.inodes[ROOT])
    {
      FewInodes(vol.g);
      n := vol.AllocInode();
      if n == NO_BLOCK {
        return n, false;
      }
      FreshKeeps(vol.g, vol.model, n, kind, now);
      var _ := vol.WriteInode(n, Fresh(kind, now));
      linked := vol.LinkEntry(name, n, kind, buffer, always);
    }

    method Close(fd: int) returns (ok: bool)
      requires Valid()
      modifies this, vol.store
      ensures vol.Consistent() && ok == ValidFd(old(State()), fd)
      ensures State() == After(vol.g, old(State()), FsRuns.Close(fd))
    {
      ok := 0 <= fd < |files| && files[fd].inUse;
      if ok {
        vol.Sync();
        files := files[fd := files[fd].(inUse := false)];
      }
    }

    method Write(fd: int, data: seq<Byte>, now: Word, buffer: Block) returns (n: int)
      requires Valid()
      modifies this, vol, vol.store, vol.store.data, vol.alloc, vol.alloc.bits
      ensures vol.Consistent() && State() == After(vol.g, old(State()), WriteFile(fd, data, now))
      ensures n == if ValidFd(old(State()), fd) && old(files)[fd].flags.write
                   then files[fd].position - old(files)[fd].position else -1
    {
      if !(0 <= fd < |files| && files[fd].inUse && files[fd].flags.write) {
        return -1;
      }
      var h := files[fd];
      WriteFromShape(vol.g, vol.model, h.inode, h.position, data);
      var end, grew := vol.WriteFile(h.inode, h.position, data, now, buffer);
      files := files[fd := h.(position := end, size := if grew then end else h.size)];
      n := end - h.position;
    }

    method Truncate(fd: int, size: Word, now: Word) returns (ok: bool)
      requires Valid()
      modifies this, vol, vol.store, vol.store.data, vol.alloc, vol.alloc.bits
      ensures vol.Consistent() && State() == After(vol.g, old(State()), FsRuns.Truncate(fd, size, now))
      ensures ok == ValidFd(old(State()), fd)
    {
      ok := 0 <= fd < |files| && files[fd].inUse;
      if ok {
        vol.TruncateFile(files[fd].inode, size, now);
        files := files[fd := files[fd].(size := size)];
      }
    }

    method Read(fd: int, len: nat, buffer: Block) returns (bytes: Option<seq<Byte>>)
      requires Valid()
      modifies this, vol.store, vol.store.data
      ensures vol.Consistent() && State() == After(vol.g, old(State()), ReadFile(fd, len, buffer))
      ensures bytes == if ValidFd(old(State()), fd) && old(files)[fd].flags.read
                       then Some(ReadBytes(vol.model, old(files)[fd].inode, old(files)[fd].position, len, buffer))
                       else None
    {
      if !(0 <= fd < |files| && files[fd].inUse && files[fd].flags.read) {
        return None;
      }
      var h := files[fd];
      var out := vol.ReadFile(h.inode, h.position, len, buffer);
      files := files[fd := Advanced(h, |out|)];
      return Some(out);
    }

    /** A sum of 32 bits read as a signed number. */
    static method NewPosition(base: Word, offset: int) returns (position: Word)
      ensures position == SeekTo(base, offset)
      ensures -0x8000_0000 <= offset < 0x8000_0000 && base + offset < 0x8000_0000 ==>
        position == AtLeastZero(base + offset)
    {
      var sum := (base + offset) % 0x1_0000_0000;
      var signed := if sum < 0x8000_0000 then sum else sum - 0x1_0000_0000;
      if signed < 0 {
        signed := 0;
      }
      position := signed;
    }

    method Seek(fd: int, offset: int, whence: Whence) returns (position: int)
      requires Valid()
      modifies this
      ensures vol.Consistent() && State() == After(vol.g, old(State()), FsRuns.Seek(fd, offset, whence))
      ensures position == if ValidFd(old(State()), fd) then files[fd].position else -1
      ensures ValidFd(old(State()), fd) && -0x8000_0000 <= offset < 0x8000_0000 ==>
        var sum := Base(old(files)[fd], whence) + offset;
        (position == AtLeastZero(sum) <==> sum < 0x8000_0000)
    {
      if !(0 <= fd < |files| && files[fd].inUse) {
        return -1;
      }
      var base := match whence case FromStart => 0 case FromHere => files[fd].position case FromEnd => files[fd].size;
      var sought := NewPosition(base, offset);
      if -0x8000_0000 <= offset < 0x8000_0000 { SeekMeans(base, offset); }
      files := files[fd := files[fd].(position := sought)];
      position := sought;
    }

    /** Frees a found inode and clears its entry. */
    method Unlink(n: Word, buffer: Block)
      requires vol.Consistent() && Good(vol.g, vol.model) && 0 < n < vol.g.inodes
      modifies vol, vol.store, vol.store.data, vol.alloc, vol.alloc.bits
      ensures vol.Consistent() && vol.model == Unlinked(vol.g, old(vol.model), n, buffer)
    {
      FileData.RemovedKeeps(vol.g, vol.model, n);
      vol.FreeInode(n);
      var _ := vol.EditEntry(n, None, buffer);
    }

    /** fs_remove, or fs_rmdir, which insists on an empty directory. */
    method UnlinkName(name: Name, directory: bool, buffer: Block) returns (ok: bool)
      requires vol.Consistent() && Good(vol.g, vol.model)
      modifies vol, vol.store, vol.store.data, vol.alloc, vol.alloc.bits
      ensures vol.Consistent() && vol.model == UnlinkedName(vol.g, old(vol.model), name, directory, buffer)
      ensures ok == Removable(old(vol.model), name, directory)
    {
      var found := vol.FindInDir(ROOT, name);
      if found == None {
        return false;
      }
      FoundInode(vol.g, vol.model, name);
      var inode := vol.ReadInode(found.value);
      ok := !directory || (inode.value.kind == DIRECTORY && inode.value.size == 0);
      if ok {
        Unlink(found.value, buffer);
      }
    }

    method Remove(path: Name, buffer: Block) returns (ok: bool)
      requires Valid()
      modifies this, vol, vol.store, vol.store.data, vol.alloc, vol.alloc.bits
      ensures vol.Consistent() && State() == After(vol.g, old(State()), FsRuns.Remove(path, buffer))
      ensures ok == Removable(old(vol.model), FileName(path), false)
    {
      ok := UnlinkName(FileName(path), false, buffer);
    }

    method RemoveDir(path: Name, buffer: Block) returns (ok: bool)
      requires Valid()
      modifies this, vol, vol.store, vol.store.data, vol.alloc, vol.alloc.bits
      ensures vol.Consistent() && State() == After(vol.g, old(State()), FsRuns.RemoveDir(path, buffer))
      ensures ok == Removable(old(vol.model), FileName(path), true)
    {
      ok := UnlinkName(FileName(path), true, buffer);
    }

    method Rename(path: Name, target: Name, buffer: Block) returns (ok: bool)
      requires Valid()
      modifies this, vol, vol.store, vol.store.data
      ensures vol.Consistent() && State() == After(vol.g, old(State()), FsRuns.Rename(path, target, buffer))
      ensures ok == (Find(old(vol.model), ROOT, FileName(path)).Some?
        && Find(old(vol.model), ROOT, FileName(target)) == None)
    {
      ok := RenameName(FileName(path), FileName(target), buffer);
    }

    /** fs_rename on the volume. */
    method RenameName(name: Name, target: Name, buffer: Block) returns (ok: bool)
      requires vol.Consistent() && Good(vol.g, vol.model)
      modifies vol, vol.store, vol.store.data
      ensures vol.Consistent() && vol.model == Renamed(old(vol.model), name, target, buffer)
      ensures ok == (Find(old(vol.model), ROOT, name).Some? && Find(old(vol.model), ROOT, target) == None)
    {
      var found := vol.FindInDir(ROOT, name);
      var taken := vol.FindInDir(ROOT, target);
      if found == None || taken.Some? {
        return false;
      }
      ghost var s', i := RenameEntry(vol.g, vol.model, name, target, buffer);
      ok := vol.EditEntry(found.value, Some(target), buffer);
    }

    /** fs_mkdir on the volume; the inode is given back if there is no place for its entry. */
    method AddDirectory(name: Name, now: Word, buffer: Block) returns (ok: bool)
      requires vol.Consistent() && Good(vol.g, vol.model) && (Find(vol.model, ROOT, name) == None ==> vol.Spare())
      modifies vol, vol.store, vol.store.data, vol.alloc, vol.alloc.bits
      ensures vol.Consistent() && vol.model == MadeDir(vol.g, old(vol.model), name, now, buffer)
      ensures ok == (Find(old(vol.model), ROOT, name) == None && Creatable(vol.g, old(vol.model), buffer))
    {
      var found := vol.FindInDir(ROOT, name);
      if found.Some? {
        return false;
      }
      FewInodes(vol.g);
      CreateReports(vol.g, vol.model, name, DIRECTORY, now, buffer);
      var n, linked := Create(name, DIRECTORY, now, buffer, false);
      if n != NO_BLOCK && !linked {
        vol.FreeInode(n);
      }
      ok := linked;
    }

    method MakeDir(path: Name, now: Word, buffer: Block) returns (ok: bool)
      requires Valid() && (Find(vol.model, ROOT, FileName(path)) == None ==> vol.Spare())
      modifies this, vol, vol.store, vol.store.data, vol.alloc, vol.alloc.bits
      ensures vol.Consistent() && State() == After(vol.g, old(State()), FsRuns.MakeDir(path, now, buffer))
      ensures ok == (Find(old(vol.model), ROOT, FileName(path)) == None && Creatable(vol.g, old(vol.model), buffer))
    {
      ok := AddDirectory(FileName(path), now, buffer);
    }
  }
}
