/** The BMFS filesystem calls (kernel/fs.c), over the device and the cached directory. */
module Filesystem {
  import opened Bytes
  import opened SectorDisk
  import opened Directory
  import opened Allocator
  import opened ByteIO
  import opened Volume

  class FileSystem {
    const disk: Disk
    const dir: array<Entry>
    const fds: array<Fd>
    const scratch: array<Byte>
    var initialized: bool

    ghost predicate Valid()
      reads this, disk
    {
      disk.Valid() && dir.Length == SLOTS && fds.Length == SLOTS && scratch.Length == SECTOR
    }

    ghost function View(): State
      requires Valid()
      reads this, disk, dir, fds
    {
      State(initialized, dir[..], fds[..], disk.data, disk.writable, disk.badWrites, disk.badReads)
    }

    /** Static storage: everything zero, nothing mounted. */
    constructor (storage: Disk)
      requires storage.Valid()
      ensures Valid() && disk == storage && fresh(dir) && fresh(fds) && fresh(scratch)
      ensures !initialized && forall i | 0 <= i < SLOTS :: !fds[i].inUse
    {
      disk := storage;
      dir := new Entry[SLOTS](_ => Entry(seq(NAME_LEN, _ => 0), 0, 0, 0, 0));
      fds := new Fd[SLOTS](_ => Fd(false, 0, 0, 0, 0, []));
      scratch := new Byte[SECTOR](_ => 0);
      initialized := false;
    }

    method DirWrite() returns (rc: int)
      requires Valid()
      modifies disk`data, disk`history, disk`badWrites
      ensures Valid() && (rc == 0 || rc == -1)
      ensures Flushed(old(disk.data), old(disk.badWrites), dir[..], rc == 0, disk.data, disk.badWrites)
      ensures old(disk.history) <= disk.history
      ensures AllTorn(old(disk.data), DIR_OFFSET, EncodeDir(dir[..]), disk.history, |old(disk.history)|)
    {
      var r := disk.Write(EncodeDir(dir[..]), DIR_OFFSET / SECTOR, DIR_LEN / SECTOR);
      rc := if r > 0 then 0 else -1;
    }

    method DirRead() returns (rc: int)
      requires Valid()
      modifies dir, disk`badReads
      ensures rc == 0 || rc == -1
      ensures rc == 0 ==> HasRoom(disk.data) && dir[..] == DiskDir(disk.data)
      ensures disk.badReads == old(disk.badReads) + (if rc == 0 then 0 else 1)
    {
      var image := EncodeDir(dir[..]);
      var raw := new Byte[DIR_LEN](i requires 0 <= i < DIR_LEN => image[i]);
      var r := disk.Read(raw, 0, DIR_OFFSET / SECTOR, DIR_LEN / SECTOR);
      assert r > 0 ==> raw[..] == DirBytes(disk.data);
      var entries := DecodeDir(raw[..]);
      forall i | 0 <= i < SLOTS {
        dir[i] := entries[i];
      }
      assert dir[..] == entries;
      rc := if r > 0 then 0 else -1;
    }

    method CloseEvery()
      requires Valid()
      modifies fds
      ensures fds[..] == CloseAll(old(fds[..]))
    {
      for i := 0 to SLOTS
        invariant forall k | 0 <= k < SLOTS :: fds[k] == if k < i then old(fds[k]).(inUse := false) else old(fds[k])
      {
        fds[i] := fds[i].(inUse := false);
      }
    }

    /** Compares the four tag bytes. */
    method CheckTag() returns (rc: int)
      requires Valid()
      modifies scratch, disk`badReads
      ensures rc == 0 || rc == -1
      ensures rc == 0 ==> TAG_OFFSET + 4 <= |disk.data| && disk.data[TAG_OFFSET..TAG_OFFSET + 4] == TAG
      ensures rc == 0 ==> disk.badReads == old(disk.badReads)
      ensures rc == -1 ==> old(disk.badReads) <= disk.badReads <= old(disk.badReads) + 1
      ensures rc == -1 && HasTag(disk.data) ==> disk.badReads == old(disk.badReads) + 1
    {
      var tag := new Byte[4](_ => 0);
      rc := ReadBytes(disk, scratch, tag, TAG_OFFSET, 4);
      if rc < 0 {
        return -1;
      }
      assert tag[..] == disk.data[TAG_OFFSET..TAG_OFFSET + 4];
      if tag[0] != 0x42 || tag[1] != 0x4D || tag[2] != 0x46 || tag[3] != 0x53 {
        return -1;
      }
    }

    method Mount() returns (r: int)
      requires Valid()
      modifies this`initialized, dir, fds, scratch, disk`badReads
      ensures Valid() && MountStep(old(View()), r, View())
    {
      CloseEvery();
      initialized := false;
      var rc := CheckTag();
      if rc < 0 {
        return -1;
      }
      rc := DirRead();
      if rc < 0 {
        return -1;
      }
      initialized := true;
      return 0;
    }

    method Open(name: CString) returns (r: int)
      requires Valid()
      modifies fds
      ensures Valid() && OpenStep(old(View()), name, r, View())
    {
      if !initialized {
        return -1;
      }
      var idx := DirFind(dir, name);
      if idx < 0 {
        return -1;
      }
      for fd := 0 to SLOTS
        invariant forall f | 0 <= f < fd :: !OpenOn(fds[..], f, idx)
        invariant fds[..] == old(fds[..])
      {
        if fds[fd].inUse && fds[fd].dirIndex == idx {
          assert OpenOn(fds[..], fd, idx);
          return fd;
        }
      }
      for fd := 0 to SLOTS
        invariant forall f | 0 <= f < fd :: fds[f].inUse
        invariant fds[..] == old(fds[..])
      {
        if !fds[fd].inUse {
          fds[fd] := OpenFd(dir[..], idx);
          assert fds[..] == old(fds[..])[fd := OpenFd(dir[..], idx)];
          return fd;
        }
      }
      return -1;
    }

    method Close(fd: int)
      requires Valid()
      modifies fds
      ensures Valid() && CloseStep(old(View()), fd, View())
    {
      if 0 <= fd < SLOTS {
        fds[fd] := fds[fd].(inUse := false);
      }
    }

    /** The size of the open file, 0 for an unusable descriptor. */
    method Size(fd: int) returns (n: U64)
      requires Valid()
      ensures n == if Usable(View(), fd) then fds[fd].size else 0
    {
      if !initialized || fd < 0 || fd >= SLOTS || !fds[fd].inUse {
        return 0;
      }
      return fds[fd].size;
    }

    method Read(fd: int, buf: array<Byte>, offset: U64, size: U64) returns (r: int)
      requires Valid() && buf != scratch && size <= buf.Length
      modifies buf, scratch, disk`badReads
      ensures Valid() && r <= size
      ensures ReadStep(old(View()), fd, offset, size, r, if r > 0 then buf[..r] else [], View())
      ensures forall i | size <= i < buf.Length :: buf[i] == old(buf[i])
    {
      if !initialized || fd < 0 || fd >= SLOTS || !fds[fd].inUse {
        return -1;
      }
      if size == 0 || offset >= fds[fd].size {
        return 0;
      }
      var n := Min(size, fds[fd].size - offset);
      var at := Address(fds[fd], offset);
      var rc := ReadBytes(disk, scratch, buf, at, n);
      return if rc < 0 then -1 else n;
    }

    method Write(fd: int, offset: U64, src: seq<Byte>) returns (r: int)
      requires Valid() && |src| < TWO_TO_64
      modifies dir, fds, scratch, disk`data, disk`history, disk`badReads, disk`badWrites
      ensures Valid() && WriteStep(old(View()), fd, offset, src, r, View())
      ensures old(disk.history) <= disk.history
      ensures forall h | |old(disk.history)| <= h < |disk.history| :: WriteLeaves(old(View()), fd, offset, src, disk.history[h])
    {
      if !initialized || fd < 0 || fd >= SLOTS || !fds[fd].inUse {
        return -1;
      }
      if !disk.writable {
        return -1;
      }
      if src == [] {
        return 0;
      }
      if !Accepts(fds[fd], offset, |src|) {
        return -1;
      }
      var at := Address(fds[fd], offset);
      var rc := WriteBytes(disk, scratch, src, at);
      ghost var s, seen := old(View()), disk.history;
      forall h | |old(disk.history)| <= h < |seen| ensures WriteLeaves(s, fd, offset, src, seen[h]) {
        PartlyIsWrite(s, fd, offset, src, seen[h]);
      }
      if rc < 0 {
        return -1;
      }
      assert disk.data == Splice(old(disk.data), at, src);
      var end := (offset + |src|) % TWO_TO_64;
      if end > fds[fd].size {
        ghost var mid := old(View()).(data := disk.data);
        var idx := fds[fd].dirIndex;
        fds[fd] := fds[fd].(size := end);
        dir[idx] := dir[idx].(size := end);
        assert dir[..] == Grow(mid, fd, end).dir && fds[..] == Grow(mid, fd, end).fds;
        var flush := DirWrite();
        assert Flushed(mid.data, mid.badWrites, Grow(mid, fd, end).dir, flush == 0, disk.data, disk.badWrites);
        forall h | |seen| <= h < |disk.history| ensures WriteLeaves(s, fd, offset, src, disk.history[h]) {
          TornIsWrite(s, fd, offset, src, disk.history[h]);
        }
      }
      return |src|;
    }

    method CheckName(name: CString) returns (good: bool)
      ensures good <==> GoodName(name)
    {
      var len := 0;
      while len < |name|
        invariant 0 <= len <= |name| && len < NAME_LEN
      {
        len := len + 1;
        if len >= NAME_LEN {
          return false;
        }
      }
      return len != 0 && name[0] != DELETED;
    }

    method Create(name: CString, blocks: U64) returns (r: int)
      requires Valid()
      modifies dir, disk`data, disk`history, disk`badWrites
      ensures Valid() && CreateStep(old(View()), name, blocks, r, View())
      ensures old(disk.history) <= disk.history
      ensures forall h | |old(disk.history)| <= h < |disk.history| :: CreateLeaves(old(View()), name, blocks, disk.history[h])
    {
      if !initialized || !disk.writable {
        return -1;
      }
      var good := CheckName(name);
      if !good {
        return -1;
      }
      var existing := DirFind(dir, name);
      if existing >= 0 {
        return -1;
      }
      var needed := if blocks == 0 then 1 else blocks;
      assert needed == Max(blocks, 1);
      var slot := DirFindFree(dir);
      if slot < 0 {
        return -1;
      }
      assert dir[slot].name[0] == old(dir[..])[slot].name[0];
      var start := FindFreeBlocks(dir, needed);
      assert !FreeSlot(old(View()).dir, -1);
      FillSlot(slot, NewEntry(name, start, needed));
      var rc := DirWrite();
      assert CreatesIn(old(View()), name, Max(blocks, 1), slot, start, rc, View());
      forall h | |old(disk.history)| <= h < |disk.history| ensures CreateLeaves(old(View()), name, blocks, disk.history[h]) {
        TornIsCreate(old(View()), name, blocks, slot, start, disk.history[h]);
      }
      return rc;
    }

    /** Writes the entry and makes sure an end marker follows it. */
    method FillSlot(slot: int, e: Entry)
      requires Valid() && 0 <= slot < SLOTS
      modifies dir
      ensures dir[..] == CreatedDir(old(dir[..]), slot, e)
    {
      ghost var was: Dir := dir[..];
      dir[slot] := e;
      var hasEnd := false;
      var i := slot + 1;
      while i < SLOTS && !hasEnd
        invariant slot < i <= SLOTS
        invariant hasEnd ==> EndFollows(was, slot)
        invariant !hasEnd ==> forall j | slot < j < i :: !EndAt(was, j)
      {
        if dir[i].name[0] == END {
          assert EndAt(was, i);
          hasEnd := true;
        }
        i := i + 1;
      }
      if !hasEnd && slot + 1 < SLOTS {
        dir[slot + 1] := dir[slot + 1].(name := dir[slot + 1].name[0 := END]);
      }
    }

    /** Closes every descriptor open on directory slot `idx`. */
    method CloseEntry(idx: int)
      requires Valid()
      modifies fds
      ensures fds[..] == CloseOn(old(fds[..]), idx)
    {
      for i := 0 to SLOTS
        invariant forall k | 0 <= k < SLOTS ::
                    fds[k] == if k < i then CloseOn(old(fds[..]), idx)[k] else old(fds[k])
      {
        if fds[i].inUse && fds[i].dirIndex == idx {
          fds[i] := fds[i].(inUse := false);
        }
      }
    }

    method Delete(name: CString) returns (r: int)
      requires Valid()
      modifies dir, fds, disk`data, disk`history, disk`badWrites
      ensures Valid() && DeleteStep(old(View()), name, r, View())
      ensures old(disk.history) <= disk.history
      ensures forall h | |old(disk.history)| <= h < |disk.history| :: DeleteLeaves(old(View()), name, disk.history[h])
    {
      if !initialized || !disk.writable {
        return -1;
      }
      var idx := DirFind(dir, name);
      if idx < 0 {
        return -1;
      }
      CloseEntry(idx);
      dir[idx] := dir[idx].(name := dir[idx].name[0 := DELETED]);
      assert dir[..] == DeletedDir(old(dir[..]), idx);
      r := DirWrite();
      assert DeletesAt(old(View()), idx, r, View());
      forall h | |old(disk.history)| <= h < |disk.history| ensures DeleteLeaves(old(View()), name, disk.history[h]) {
        TornIsDelete(old(View()), name, idx, disk.history[h]);
      }
    }

    method Sync() returns (r: int)
      requires Valid()
      modifies disk`data, disk`history, disk`badWrites
      ensures Valid() && SyncStep(old(View()), r, View())
      ensures old(disk.history) <= disk.history
      ensures forall h | |old(disk.history)| <= h < |disk.history| :: SyncLeaves(old(View()), disk.history[h])
    {
      if !initialized {
        return -1;
      }
      r := DirWrite();
      forall h | |old(disk.history)| <= h < |disk.history| ensures SyncLeaves(old(View()), disk.history[h]) {
        TornIsSync(old(View()), disk.history[h]);
      }
    }
  }
}
