/** Crashes at any moment inside a filesystem call, and what a mount finds after them. */
module CrashRecovery {
  import opened Bytes
  import opened SectorDisk
  import opened Directory
  import opened Volume
  import opened VolumeSafety
  import opened VolumeSteps
  import opened VolumeRuns
  import opened VolumeDurability
  import opened FlatFiles
  import opened FlatSteps
  import opened FlatRuns

  /**
   * What the device can hold at some moment of the call: what some outcome of it leaves.
   * The calls of `Filesystem` are proved to pass through such states only.
   */
  ghost predicate Inside(s: State, op: Op, data: seq<Byte>) {
    exists r, t :: Step(s, op, r, t) && t.data == data
  }

  lemma LeavesIsInside(s: State, op: Op, data: seq<Byte>)
    ensures op.WriteAt? && WriteLeaves(s, op.fd, op.offset, op.src, data) ==> Inside(s, op, data)
    ensures op.Create? && CreateLeaves(s, op.name, op.blocks, data) ==> Inside(s, op, data)
    ensures op.Delete? && DeleteLeaves(s, op.name, data) ==> Inside(s, op, data)
    ensures op.Sync? && SyncLeaves(s, data) ==> Inside(s, op, data)
  {
    hide WriteStep, CreateStep, DeleteStep, SyncStep;
    match op
    case WriteAt(fd, offset, src) =>
      if r, t :| WriteStep(s, fd, offset, src, r, t) && t.data == data {
        assert Step(s, op, r, t);
      }
    case Create(name, blocks) =>
      if r, t :| CreateStep(s, name, blocks, r, t) && t.data == data {
        assert Step(s, op, r, t);
      }
    case Delete(name) =>
      if r, t :| DeleteStep(s, name, r, t) && t.data == data {
        assert Step(s, op, r, t);
      }
    case Sync =>
      if r, t :| SyncStep(s, r, t) && t.data == data {
        assert Step(s, op, r, t);
      }
    case _ =>
  }

  /** After the crash nothing is mounted and nothing is open; the device is as the crash left it. */
  ghost predicate Booted(b: State, data: seq<Byte>) {
    b.data == data && !b.initialized && forall f | 0 <= f < SLOTS :: !b.fds[f].inUse
  }

  /** The device has the directory from before the call or from after an outcome of it. */
  lemma InsideOldOrNew(s: State, op: Op, r: int, t: State)
    requires Inv(s) && s.initialized && Synced(s) && Guard(s, op) && Step(s, op, r, t)
    ensures Inv(t) && HasTag(t.data) && Mountable(t.data)
    ensures DirBytes(t.data) == EncodeDir(s.dir) || (t.initialized && OnDevice(t))
  {
    hide WellFormed, FdsMirror, EncodeDir;
    OnDeviceIsMountable(s);
    StepKeepsInv(s, op, r, t);
    StepLeavesMountable(s, op, r, t);
    if op.Mount? {
      MountKeeps(s, r, t);
    } else {
      StaysMounted(s, op, r, t);
      StepLeavesOldOrNew(s, op, r, t);
    }
  }

  lemma StaysMounted(s: State, op: Op, r: int, t: State)
    requires Step(s, op, r, t) && !op.Mount?
    ensures t.initialized == s.initialized
  {
    hide Flushed, CreatedDir, CloseOn, PartlyWritten, Accepts, Address, Named;
    match op
    case Open(name) =>
    case Close(fd) =>
    case ReadAt(fd, offset, size, out) =>
    case WriteAt(fd, offset, src) =>
    case Create(name, blocks) =>
    case Delete(name) =>
    case Sync =>
  }

  lemma BootMounts(t: State, b: State, r: int, s': State)
    requires HasTag(t.data) && |t.data| < TWO_TO_64 && Mountable(t.data) && Booted(b, t.data)
    requires MountStep(b, r, s') && s'.badReads == b.badReads
    ensures r == 0 && Inv(b) && Inv(s') && s'.initialized && s'.data == t.data && s'.dir == DiskDir(t.data)
  {
    hide WellFormed, DiskDir;
    MountSucceeds(b, r, s');
    MountKeeps(b, r, s');
  }

  /**
   * A crash at any moment of a call on a volume whose directory is on the device, and a
   * mount without a failed read: the mount succeeds, the volume is good, and its directory
   * is the one from before the call or from after an outcome of it.
   */
  lemma CrashThenMount(s: State, op: Op, data: seq<Byte>, b: State, r: int, s': State)
    requires Inv(s) && s.initialized && Synced(s) && Guard(s, op) && Inside(s, op, data)
    requires Booted(b, data) && MountStep(b, r, s') && s'.badReads == b.badReads
    ensures r == 0 && Inv(s') && s'.data == data
    ensures s'.dir == s.dir || exists r', t :: Step(s, op, r', t) && t.data == data && s'.dir == t.dir
  {
    hide WellFormed, FdsMirror, EncodeDir, DecodeDir, Guard, Step, Inv, MountStep, Mountable;
    var r', t :| Step(s, op, r', t) && t.data == data;
    InsideOldOrNew(s, op, r', t);
    InvHasRoom(t);
    BootMounts(t, b, r, s');
    DecodeEncodeDir(s.dir);
    DecodeEncodeDir(t.dir);
  }

  // ---- what is in the files ----

  /** Two states with the same directory in force and the same device have the same files. */
  lemma SameByte(t: State, s': State, n: seq<Byte>, k: int, byte: Byte)
    requires ByteIs(t, n, k, byte) && Inv(s') && t.initialized && s'.initialized && s'.dir == t.dir && s'.data == t.data
    ensures ByteIs(s', n, k, byte)
  {
    SameFiles(t, s');
    hide Inv, Files;
  }

  /** The volume as it would be if the call had failed without changing the cached directory. */
  ghost function WithData(s: State, data: seq<Byte>): State {
    s.(data := data, badWrites := s.badWrites + 1)
  }

  lemma WithDataIsGood(s: State, data: seq<Byte>)
    requires Inv(s) && s.initialized && |data| == |s.data| && HasTag(data)
    ensures Inv(WithData(s, data))
  {
  }

  /** A write whose directory update did not reach the device is a write that failed. */
  lemma OldDirectoryIsTorn(s: State, fd: int, offset: U64, src: seq<Byte>, r: int, t: State)
    requires Inv(s) && WriteStep(s, fd, offset, src, r, t) && t != s && offset + |src| < TWO_TO_64
    requires HasTag(t.data) && DirBytes(t.data) == DirBytes(s.data)
    ensures Usable(s, fd) && WriteStep(s, fd, offset, src, -1, WithData(s, t.data))
  {
    WriteCases(s, fd, offset, src, r, t);
    WriteLands(s, fd, offset, |src|);
    var at := Address(s.fds[fd], offset);
    if !TornWrite(s, at, src, t) {
      FullPartly(s, fd, at, src, offset + |src|, t);
    }
    hide Accepts, Address, FullWrite, Inv, PartlyWritten;
    TornAgain(s, fd, offset, src, t);
  }

  lemma TornAgain(s: State, fd: int, offset: U64, src: seq<Byte>, t: State)
    requires Usable(s, fd) && s.writable && src != [] && Accepts(s.fds[fd], offset, |src|)
    requires PartlyWritten(s.data, Address(s.fds[fd], offset), src, t.data)
    ensures WriteStep(s, fd, offset, src, -1, WithData(s, t.data))
  {
    hide Accepts, Address, FullWrite, PartlyWritten;
    assert TornWrite(s, Address(s.fds[fd], offset), src, WithData(s, t.data));
  }

  lemma FullPartly(s: State, fd: int, at: U64, src: seq<Byte>, end: U64, t: State)
    requires HasTag(s.data) && HasTag(t.data) && 0 <= fd < SLOTS && BLOCK <= at && FullWrite(s, fd, at, src, end, t)
    requires DirBytes(t.data) == DirBytes(s.data)
    ensures PartlyWritten(s.data, at, src, t.data)
  {
    hide EncodeDir;
    var mid := Splice(s.data, at, src);
    if end > s.fds[fd].size {
      var dir := Grow(s.(data := mid), fd, end).dir;
      var ok :| Flushed(mid, s.badWrites, dir, ok, t.data, t.badWrites);
      forall p | 0 <= p < |mid| ensures t.data[p] == mid[p] {
        if DIR_OFFSET <= p < DIR_OFFSET + DIR_LEN {
          assert DirBytes(t.data)[p - DIR_OFFSET] == DirBytes(s.data)[p - DIR_OFFSET];
        }
      }
    }
  }

  /** The other calls leave the data area alone. */
  lemma DataAreaKept(s: State, op: Op, r: int, t: State)
    requires Inv(s) && Guard(s, op) && Step(s, op, r, t) && !op.WriteAt?
    ensures |t.data| == |s.data| && forall p | BLOCK <= p < |s.data| :: t.data[p] == s.data[p]
  {
    hide WellFormed, FdsMirror, EncodeDir, Live, CreatedDir, CloseOn, Flushed, CreateGuard;
    match op
    case Create(name, blocks) =>
      if !CreateRefused(s, name) {
        var slot, start :| CreatesIn(s, name, Max(blocks, 1), slot, start, r, t);
        FlushKeepsRest(s.data, s.badWrites, t.dir, r == 0, t.data, t.badWrites);
      }
    case Delete(name) =>
      if s.initialized && s.writable && !Finds(s.dir, name, -1) {
        var idx :| 0 <= idx && Finds(s.dir, name, idx) && DeletesAt(s, idx, r, t);
        FlushKeepsRest(s.data, s.badWrites, t.dir, r == 0, t.data, t.badWrites);
      }
    case Sync =>
      if s.initialized {
        FlushKeepsRest(s.data, s.badWrites, t.dir, r == 0, t.data, t.badWrites);
      }
    case _ =>
  }

  /** With the old directory on the device, an undisturbed byte is where it was. */
  lemma OldDirectoryKeepsByte(s: State, op: Op, r: int, t: State, n: seq<Byte>, k: int, byte: Byte)
    requires s.initialized && Synced(s) && Guard(s, op) && Step(s, op, r, t)
    requires ByteIs(s, n, k, byte) && !Disturbs(s, op, n, k)
    requires HasTag(t.data) && |t.data| == |s.data| && DirBytes(t.data) == EncodeDir(s.dir)
    ensures ByteIs(WithData(s, t.data), n, k, byte)
  {
    hide WellFormed, FdsMirror, EncodeDir, Files, WriteStep, Guard, Inv;
    var u := WithData(s, t.data);
    WithDataIsGood(s, t.data);
    if op.WriteAt? && t != s {
      GuardedWrite(s, op);
      OldDirectoryIsTorn(s, op.fd, op.offset, op.src, r, t);
      WriteKeepsByte(s, op.fd, op.offset, op.src, -1, u, n, k, byte);
    } else {
      if !op.WriteAt? {
        DataAreaKept(s, op, r, t);
      }
      SameDirFiles(s, u);
    }
  }

  lemma GuardedWrite(s: State, op: Op)
    requires Guard(s, op) && op.WriteAt?
    ensures op.offset + |op.src| < TWO_TO_64
  {
  }

  lemma SameDirFiles(s: State, u: State)
    requires Inv(s) && Inv(u) && s.initialized && u.initialized && u.dir == s.dir && |u.data| == |s.data|
    requires forall p | BLOCK <= p < |s.data| :: u.data[p] == s.data[p]
    ensures Files(u) == Files(s)
  {
    SameFiles(s, u);
  }

  /**
   * A crash at any moment of a call, and a mount: every file byte that the call was not
   * about to change is still there.
   */
  lemma CrashKeepsByte(s: State, op: Op, data: seq<Byte>, b: State, r: int, s': State, n: seq<Byte>, k: int, byte: Byte)
    requires s.initialized && Synced(s) && Guard(s, op) && Inside(s, op, data)
    requires Booted(b, data) && MountStep(b, r, s') && s'.badReads == b.badReads
    requires ByteIs(s, n, k, byte) && !Disturbs(s, op, n, k)
    ensures r == 0 && ByteIs(s', n, k, byte)
  {
    hide WellFormed, FdsMirror, EncodeDir, DecodeDir, Guard, Step, Inv, MountStep, Mountable, Files, Disturbs, Synced;
    var r', t :| Step(s, op, r', t) && t.data == data;
    InsideOldOrNew(s, op, r', t);
    InvHasRoom(s);
    InvHasRoom(t);
    StepOnRegion(s, op, r', t);
    BootMounts(t, b, r, s');
    if t.initialized && OnDevice(t) {
      StepKeepsByte(s, op, r', t, n, k, byte);
      DecodeEncodeDir(t.dir);
      SameByte(t, s', n, k, byte);
    } else {
      OldDirectoryKeepsByte(s, op, r', t, n, k, byte);
      DecodeEncodeDir(s.dir);
      SameByte(WithData(s, data), s', n, k, byte);
    }
  }

  /** Whatever the outcome of a write, a byte of its range is the old or the new one. */
  lemma WriteLeavesOldOrNew(s: State, fd: int, offset: U64, src: seq<Byte>, r: int, t: State, k: int, byte: Byte)
    returns (x: Byte)
    requires WriteStep(s, fd, offset, src, r, t) && offset + |src| < TWO_TO_64 && Usable(s, fd)
    requires ByteIs(s, NameOf(s, fd), k, byte) && offset <= k < offset + |src|
    ensures ByteIs(t, NameOf(s, fd), k, x) && (x == byte || x == src[k - offset])
  {
    hide Inv, Files, WriteStep, TornWrite, FullWrite, Accepts, Address, NameOf;
    WriteKeeps(s, fd, offset, src, r, t);
    WriteCases(s, fd, offset, src, r, t);
    x := byte;
    if t != s {
      if TornWrite(s, Address(s.fds[fd], offset), src, t) {
        TornWriteRefines(s, fd, offset, src, t);
      } else {
        FullWriteRefines(s, fd, offset, src, t);
      }
      x := Files(t)[NameOf(s, fd)].extent[k];
    }
  }

  /** A crash at any moment of a write, and a mount: each byte of the file in its range is the old or the new one. */
  lemma CrashedWriteIsOldOrNew(s: State, op: Op, data: seq<Byte>, b: State, r: int, s': State, k: int, byte: Byte)
    returns (x: Byte)
    requires op.WriteAt? && s.initialized && Synced(s) && Guard(s, op) && Inside(s, op, data) && Usable(s, op.fd)
    requires Booted(b, data) && MountStep(b, r, s') && s'.badReads == b.badReads
    requires ByteIs(s, NameOf(s, op.fd), k, byte) && op.offset <= k < op.offset + |op.src|
    ensures r == 0 && ByteIs(s', NameOf(s, op.fd), k, x) && (x == byte || x == op.src[k - op.offset])
  {
    hide WellFormed, FdsMirror, EncodeDir, DecodeDir, Guard, Inv, MountStep, Mountable, Files, NameOf, WriteStep, Synced;
    var r', t :| Step(s, op, r', t) && t.data == data;
    GuardedWrite(s, op);
    InsideOldOrNew(s, op, r', t);
    InvHasRoom(s);
    InvHasRoom(t);
    BootMounts(t, b, r, s');
    if t.initialized && OnDevice(t) {
      x := WriteLeavesOldOrNew(s, op.fd, op.offset, op.src, r', t, k, byte);
      DecodeEncodeDir(t.dir);
      SameByte(t, s', NameOf(s, op.fd), k, x);
    } else {
      SyncedIsOn(s);
      Unsynced(s, t);
      OldDirectoryIsTorn(s, op.fd, op.offset, op.src, r', t);
      x := WriteLeavesOldOrNew(s, op.fd, op.offset, op.src, -1, WithData(s, data), k, byte);
      DecodeEncodeDir(s.dir);
      SameByte(WithData(s, data), s', NameOf(s, op.fd), k, x);
    }
  }

  lemma SyncedIsOn(s: State)
    requires Synced(s) && s.initialized
    ensures HasRoom(s.data) && DirBytes(s.data) == EncodeDir(s.dir)
  {
  }

  lemma Unsynced(s: State, t: State)
    requires s.initialized && Synced(s) && HasRoom(t.data) && !(t.initialized && OnDevice(t))
    ensures t != s
  {
  }
}
