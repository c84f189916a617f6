/** What the device still has when directory writes fail, and when a volume can be mounted again. */
module VolumeDurability {
  import opened Bytes
  import opened SectorDisk
  import opened Directory
  import opened Allocator
  import opened Volume
  import opened VolumeSafety
  import opened VolumeSteps
  import opened VolumeRuns

  // ---- one flush ----

  /** Where the bytes of slot `i` lie in the directory region. */
  lemma {:induction false} EncodedByte(dir: seq<Entry>, i: nat, b: nat)
    requires i < |dir| && b < ENTRY_LEN
    ensures EncodeDir(dir)[ENTRY_LEN * i + b] == EncodeEntry(dir[i])[b]
    decreases i
  {
    hide EncodeEntry;
    if i > 0 {
      EncodedByte(dir[1..], i - 1, b);
    }
  }

  /** The two directories differ in slot `i` at most. */
  ghost predicate OneSlot(dir: Dir, dir': Dir, i: int) {
    0 <= i < SLOTS && forall j | 0 <= j < SLOTS && j != i :: dir'[j] == dir[j]
  }

  lemma SameOutside(dir: Dir, dir': Dir, i: int, k: int)
    requires OneSlot(dir, dir', i) && 0 <= k < DIR_LEN && k / ENTRY_LEN != i
    ensures EncodeDir(dir')[k] == EncodeDir(dir)[k]
  {
    EncodedByte(dir, k / ENTRY_LEN, k % ENTRY_LEN);
    EncodedByte(dir', k / ENTRY_LEN, k % ENTRY_LEN);
  }

  /**
   * A flush that fails half way, from a device that had the directory before: one entry
   * lies in one sector, so the device has the directory before or the one after.
   */
  lemma TornFlushIsOldOrNew(before: seq<Byte>, dir: Dir, dir': Dir, i: int, after: seq<Byte>)
    requires HasRoom(before) && DirBytes(before) == EncodeDir(dir) && OneSlot(dir, dir', i)
    requires Torn(before, DIR_OFFSET, EncodeDir(dir'), after)
    ensures DirBytes(after) == EncodeDir(dir) || DirBytes(after) == EncodeDir(dir')
  {
    var q := i * ENTRY_LEN / SECTOR;
    var lo := DIR_OFFSET + q * SECTOR;
    forall k | 0 <= k < DIR_LEN && !(q * SECTOR <= k < q * SECTOR + SECTOR)
      ensures DirBytes(after)[k] == EncodeDir(dir)[k] == EncodeDir(dir')[k]
    {
      SameOutside(dir, dir', i, k);
      assert DirBytes(before)[k] == before[DIR_OFFSET + k];
    }
    if SectorKept(before, lo, after) {
      OldSector(before, dir, q, after);
    } else {
      assert SectorMoved(DIR_OFFSET, EncodeDir(dir'), lo, after);
      NewSector(dir', q, after);
    }
  }

  lemma OldSector(before: seq<Byte>, dir: Dir, q: nat, after: seq<Byte>)
    requires |after| == |before| && HasRoom(before) && DirBytes(before) == EncodeDir(dir)
    requires SectorKept(before, DIR_OFFSET + q * SECTOR, after)
    requires forall k | 0 <= k < DIR_LEN && !(q * SECTOR <= k < q * SECTOR + SECTOR) :: DirBytes(after)[k] == EncodeDir(dir)[k]
    ensures DirBytes(after) == EncodeDir(dir)
  {
    forall k | 0 <= k < DIR_LEN ensures DirBytes(after)[k] == EncodeDir(dir)[k] {
      assert DirBytes(before)[k] == before[DIR_OFFSET + k];
    }
  }

  lemma NewSector(dir: Dir, q: nat, after: seq<Byte>)
    requires HasRoom(after) && SectorMoved(DIR_OFFSET, EncodeDir(dir), DIR_OFFSET + q * SECTOR, after)
    requires forall k | 0 <= k < DIR_LEN && !(q * SECTOR <= k < q * SECTOR + SECTOR) :: DirBytes(after)[k] == EncodeDir(dir)[k]
    ensures DirBytes(after) == EncodeDir(dir)
  {
    forall k | 0 <= k < DIR_LEN ensures DirBytes(after)[k] == EncodeDir(dir)[k] {
      assert DirBytes(after)[k] == after[DIR_OFFSET + k];
    }
  }

  // ---- one call ----

  /** The directory region is as it was, and so is the cached directory, if it is not the one on the device. */
  ghost predicate RegionKept(s: State, s': State)
    requires HasRoom(s.data) && HasRoom(s'.data)
  {
    && DirBytes(s'.data) == DirBytes(s.data)
    && (s'.initialized ==> OnDevice(s') || (s.initialized && s'.dir == s.dir))
  }

  /** A flush of a directory with one new entry failed. */
  ghost predicate RegionTorn(s: State, mid: seq<Byte>, i: int, s': State)
    requires HasRoom(s.data)
  {
    && HasRoom(mid) && DirBytes(mid) == DirBytes(s.data) && OneSlot(s.dir, s'.dir, i)
    && s.initialized && Torn(mid, DIR_OFFSET, EncodeDir(s'.dir), s'.data) && s'.badWrites > s.badWrites
  }

  /** What a call can do to the directory on the device: nothing, write it, or tear one entry. */
  ghost predicate RegionStep(s: State, s': State)
    requires HasRoom(s.data) && HasRoom(s'.data)
  {
    || RegionKept(s, s')
    || (s'.initialized && OnDevice(s'))
    || (s'.initialized && exists mid, i :: RegionTorn(s, mid, i, s'))
  }

  lemma FlushOnRegion(s: State, mid: seq<Byte>, i: int, ok: bool, s': State)
    requires HasTag(s.data) && HasTag(mid) && |mid| == |s.data| && DirBytes(mid) == DirBytes(s.data)
    requires s.initialized && s'.initialized && OneSlot(s.dir, s'.dir, i)
    requires Flushed(mid, s.badWrites, s'.dir, ok, s'.data, s'.badWrites)
    ensures |s'.data| == |s.data| && HasTag(s'.data) && s'.badWrites >= s.badWrites && RegionStep(s, s')
  {
    FlushKeepsRest(mid, s.badWrites, s'.dir, ok, s'.data, s'.badWrites);
    if !ok {
      assert RegionTorn(s, mid, i, s');
    }
  }

  lemma CreateOnRegion(s: State, name: CString, blocks: U64, r: int, s': State)
    requires Inv(s) && CreateStep(s, name, blocks, r, s') && CreateGuard(s, name, blocks)
    ensures |s'.data| == |s.data| && HasTag(s'.data) && s'.badWrites >= s.badWrites && RegionStep(s, s')
  {
    hide Flushed, WellFormed, FdsMirror, Live, LowestFit, RegionTorn;
    if !CreateRefused(s, name) {
      var slot, start :| CreatesIn(s, name, Max(blocks, 1), slot, start, r, s');
      FlushOnRegion(s, s.data, slot, r == 0, s');
    }
  }

  lemma DeleteOnRegion(s: State, name: CString, r: int, s': State)
    requires Inv(s) && DeleteStep(s, name, r, s')
    ensures |s'.data| == |s.data| && HasTag(s'.data) && s'.badWrites >= s.badWrites && RegionStep(s, s')
  {
    hide Flushed, WellFormed, FdsMirror, Live, CloseOn, RegionTorn;
    if s.initialized && s.writable && !Finds(s.dir, name, -1) {
      var idx :| 0 <= idx && Finds(s.dir, name, idx) && DeletesAt(s, idx, r, s');
      FlushOnRegion(s, s.data, idx, r == 0, s');
    }
  }

  lemma WriteOnRegion(s: State, fd: int, offset: U64, src: seq<Byte>, r: int, s': State)
    requires Inv(s) && WriteStep(s, fd, offset, src, r, s') && offset + |src| < TWO_TO_64
    ensures |s'.data| == |s.data| && HasTag(s'.data) && s'.badWrites >= s.badWrites && RegionStep(s, s')
  {
    hide WriteStep, Accepts, Address, WellFormed, FdsMirror, Flushed, RegionTorn;
    WriteCases(s, fd, offset, src, r, s');
    if s' != s {
      WriteLands(s, fd, offset, |src|);
      var at := Address(s.fds[fd], offset);
      if TornWrite(s, at, src, s') {
        FrontDecides(s.data, s'.data);
      } else {
        var mid := Splice(s.data, at, src);
        FrontDecides(s.data, mid);
        if offset + |src| > s.fds[fd].size {
          var ok :| Flushed(mid, s.badWrites, s'.dir, ok, s'.data, s'.badWrites);
          FlushOnRegion(s, mid, s.fds[fd].dirIndex, ok, s');
        }
      }
    }
  }

  lemma StepOnRegion(s: State, op: Op, r: int, s': State)
    requires Inv(s) && Guard(s, op) && Step(s, op, r, s')
    ensures |s'.data| == |s.data| && HasTag(s'.data) && s'.badWrites >= s.badWrites && RegionStep(s, s')
  {
    hide RegionTorn, WellFormed, FdsMirror, WriteStep, CreateStep, DeleteStep, Flushed, CreateGuard;
    match op
    case Mount =>
      MountKeeps(s, r, s');
    case Open(name) =>
    case Close(fd) =>
    case ReadAt(fd, offset, size, out) =>
    case WriteAt(fd, offset, src) => WriteOnRegion(s, fd, offset, src, r, s');
    case Create(name, blocks) => CreateOnRegion(s, name, blocks, r, s');
    case Delete(name) => DeleteOnRegion(s, name, r, s');
    case Sync =>
      if s.initialized {
        FlushOnRegion(s, s.data, 0, r == 0, s');
      }
  }

  /** The cached directory, if there is one, is on the device. */
  ghost predicate Synced(s: State) {
    s.initialized ==> HasRoom(s.data) && OnDevice(s)
  }

  /** Without a failed write the device keeps up with the cache. */
  lemma StepKeepsSynced(s: State, op: Op, r: int, s': State)
    requires Inv(s) && Guard(s, op) && Step(s, op, r, s') && Synced(s) && s'.badWrites == s.badWrites
    ensures Synced(s')
  {
    hide Guard, Step, WellFormed, FdsMirror;
    StepOnRegion(s, op, r, s');
  }

  /** One failed write on top of that: the device has the directory from before the call or from after it. */
  lemma StepLeavesOldOrNew(s: State, op: Op, r: int, s': State)
    requires Inv(s) && Guard(s, op) && Step(s, op, r, s') && s.initialized && Synced(s) && !op.Mount?
    ensures HasRoom(s'.data) && (DirBytes(s'.data) == EncodeDir(s.dir) || DirBytes(s'.data) == EncodeDir(s'.dir))
  {
    hide Guard, Step, WellFormed, FdsMirror;
    StepOnRegion(s, op, r, s');
    if !RegionKept(s, s') && !OnDevice(s') {
      var mid, i :| RegionTorn(s, mid, i, s');
      TornFlushIsOldOrNew(mid, s.dir, s'.dir, i, s'.data);
    }
  }

  /** Either way it can be mounted. */
  lemma StepLeavesMountable(s: State, op: Op, r: int, s': State)
    requires Inv(s) && Guard(s, op) && Step(s, op, r, s') && Mountable(s.data)
    requires s'.badWrites == s.badWrites || Synced(s)
    ensures Mountable(s'.data)
  {
    hide Guard, Step, WellFormed, FdsMirror;
    StepOnRegion(s, op, r, s');
    StepKeepsInv(s, op, r, s');
    if DirBytes(s'.data) != DirBytes(s.data) {
      DecodeEncodeDir(s.dir);
      DecodeEncodeDir(s'.dir);
      if !OnDevice(s') {
        var mid, i :| RegionTorn(s, mid, i, s');
        TornFlushIsOldOrNew(mid, s.dir, s'.dir, i, s'.data);
      }
    }
  }

  // ---- whole runs ----

  lemma {:induction false} RunKeepsSynced(states: seq<State>, events: seq<Event>)
    requires Run(states, events) && Inv(states[0]) && Synced(states[0])
    requires states[|events|].badWrites == states[0].badWrites
    ensures Synced(states[|events|])
    decreases |events|
  {
    RunCountsFailures(states, events);
    if |events| > 0 {
      var n := |events| - 1;
      RunPrefix(states, events, n);
      RunCountsFailures(states[..n + 1], events[..n]);
      RunKeepsInv(states, events);
      StepOnRegion(states[n], events[n].op, events[n].r, states[n + 1]);
      RunKeepsSynced(states[..n + 1], events[..n]);
      StepKeepsSynced(states[n], events[n].op, events[n].r, states[n + 1]);
    }
  }

  lemma {:induction false} RunCountsFailures(states: seq<State>, events: seq<Event>)
    requires Run(states, events) && Inv(states[0])
    ensures states[|events|].badWrites >= states[0].badWrites
    decreases |events|
  {
    if |events| > 0 {
      var n := |events| - 1;
      RunPrefix(states, events, n);
      RunCountsFailures(states[..n + 1], events[..n]);
      RunKeepsInv(states, events);
      StepOnRegion(states[n], events[n].op, events[n].r, states[n + 1]);
    }
  }

  /**
   * A volume can be mounted again after any run in which writes failed only while the
   * device had the cached directory: no two failed flushes without a good one between.
   */
  lemma {:induction false} RunStaysMountable(states: seq<State>, events: seq<Event>)
    requires Run(states, events) && Inv(states[0]) && Mountable(states[0].data)
    requires forall i | 0 <= i < |events| :: states[i + 1].badWrites == states[i].badWrites || Synced(states[i])
    ensures Mountable(states[|events|].data)
    decreases |events|
  {
    if |events| > 0 {
      var n := |events| - 1;
      RunPrefix(states, events, n);
      RunKeepsInv(states, events);
      RunStaysMountable(states[..n + 1], events[..n]);
      StepLeavesMountable(states[n], events[n].op, events[n].r, states[n + 1]);
    }
  }

  /** A remount after any run in which no write failed succeeds, unless a read fails, and brings back the same directory and contents. */
  lemma RemountRestores(states: seq<State>, events: seq<Event>, r: int, s': State)
    requires Run(states, events) && Inv(states[0]) && Synced(states[0])
    requires var s := states[|events|];
             && s.badWrites == states[0].badWrites && s.initialized
             && MountStep(s, r, s') && s'.badReads == s.badReads
    ensures var s := states[|events|]; r == 0 && s'.dir == s.dir && s'.data == s.data && Inv(s')
  {
    var s := states[|events|];
    RunKeepsInv(states, events);
    RunKeepsSynced(states, events);
    OnDeviceIsMountable(s);
    MountSucceeds(s, r, s');
    MountKeeps(s, r, s');
  }

  /** So does a remount after a successful sync, even if writes failed before it. */
  lemma SyncThenRemountRestores(states: seq<State>, events: seq<Event>, synced: State, r: int, s': State)
    requires Run(states, events) && Inv(states[0])
    requires SyncStep(states[|events|], 0, synced) && MountStep(synced, r, s') && s'.badReads == synced.badReads
    ensures var s := states[|events|];
            && r == 0 && Inv(s') && s'.dir == s.dir && |s'.data| == |s.data|
            && forall i | BLOCK <= i < |s.data| :: s'.data[i] == s.data[i]
  {
    var s := states[|events|];
    RunKeepsInv(states, events);
    SyncKeeps(s, 0, synced);
    FlushKeepsRest(s.data, s.badWrites, synced.dir, true, synced.data, synced.badWrites);
    OnDeviceIsMountable(synced);
    MountSucceeds(synced, r, s');
    MountKeeps(synced, r, s');
  }

  /**
   * And a remount after one failed flush, from a volume whose device had its directory:
   * the volume is good, and its directory is the one from before or after that call.
   */
  lemma FailedFlushThenRemount(s: State, op: Op, r: int, t: State, r': int, s': State)
    requires Inv(s) && s.initialized && Synced(s) && !op.Mount? && Guard(s, op) && Step(s, op, r, t)
    requires MountStep(t, r', s') && s'.badReads == t.badReads
    ensures r' == 0 && Inv(s') && s'.data == t.data && (s'.dir == s.dir || s'.dir == t.dir)
  {
    hide Guard, Step, WellFormed, FdsMirror;
    StepKeepsInv(s, op, r, t);
    StepLeavesOldOrNew(s, op, r, t);
    OnDeviceIsMountable(s);
    StepLeavesMountable(s, op, r, t);
    MountSucceeds(t, r', s');
    MountKeeps(t, r', s');
    DecodeEncodeDir(s.dir);
    DecodeEncodeDir(t.dir);
  }
}
