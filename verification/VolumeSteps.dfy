/** Every filesystem call keeps the volume invariant, and so does every run of calls. */
module VolumeSteps {
  import opened Bytes
  import opened Directory
  import opened Allocator
  import opened Volume
  import opened VolumeSafety

  // ---- addresses ----

  /** In a well-formed extent the 64-bit address computation does not wrap. */
  lemma AddressPlain(dir: Dir, len: int, idx: int, offset: U64)
    requires 0 <= idx < SLOTS && ExtentOk(dir, idx, len) && offset < dir[idx].reserved * BLOCK
    ensures Address(OpenFd(dir, idx), offset) == dir[idx].start * BLOCK + offset
    ensures dir[idx].reserved * BLOCK < TWO_TO_64
    ensures dir[idx].start * BLOCK + offset < (dir[idx].start + dir[idx].reserved) * BLOCK <= TWO_TO_64
  {
  }

  /**
   * An accepted write stays inside the extent of its file exactly when the end of
   * the written range does not wrap around 2^64.
   */
  lemma WriteContainedIff(f: Fd, offset: U64, n: nat)
    requires 1 <= f.start && f.start + f.reserved <= MAX_BLOCK
    requires 0 < n < TWO_TO_64 && Accepts(f, offset, n)
    ensures (f.start * BLOCK <= Address(f, offset) && Address(f, offset) + n <= (f.start + f.reserved) * BLOCK)
            <==> offset + n < TWO_TO_64
  {
  }

  /** The space check lets a range through that begins one byte before the file. */
  lemma WriteBeforeFile(dir: Dir)
    requires dir[0].start == 1 && dir[0].reserved == 1
    ensures Accepts(OpenFd(dir, 0), TWO_TO_64 - 1, 2)
    ensures Address(OpenFd(dir, 0), TWO_TO_64 - 1) == BLOCK - 1
  {
  }

  // ---- one call ----

  /** The tag and the directory depend only on the first block. */
  lemma FrontDecides(before: seq<Byte>, after: seq<Byte>)
    requires |after| == |before| && HasTag(before)
    requires forall i | 0 <= i < |before| && i < BLOCK :: after[i] == before[i]
    ensures HasTag(after) && DirBytes(after) == DirBytes(before)
  {
    assert after[TAG_OFFSET..TAG_OFFSET + 4] == before[TAG_OFFSET..TAG_OFFSET + 4];
  }

  /** On a good volume a mount fails only with a read. */
  lemma MountSucceeds(s: State, r: int, s': State)
    requires HasTag(s.data) && MountStep(s, r, s')
    ensures r == 0 <==> s'.badReads == s.badReads
    ensures r == 0 ==> s'.initialized
  {
  }

  /** Mounting keeps a good volume exactly when the directory on the device is well formed. */
  lemma MountKeepsIff(s: State, r: int, s': State)
    requires Inv(s) && MountStep(s, r, s')
    ensures Inv(s') <==> Mountable(s.data)
    ensures !s.initialized ==> Mountable(s.data)
  {
  }

  /** It moves no byte, and if the cached directory was on the device, no file either. */
  lemma MountKeeps(s: State, r: int, s': State)
    requires Inv(s) && MountStep(s, r, s') && Mountable(s.data)
    ensures Inv(s') && s'.data == s.data
    ensures (s.initialized ==> OnDevice(s)) ==> CurrentDir(s') == CurrentDir(s)
    ensures s'.initialized ==> OnDevice(s')
  {
    DecodeEncodeDir(s.dir);
    EncodeDecodeDir(DirBytes(s.data));
  }

  /** A well-formed cached directory on the device can be mounted. */
  lemma OnDeviceIsMountable(s: State)
    requires Inv(s) && (s.initialized ==> OnDevice(s))
    ensures Mountable(s.data)
  {
    DecodeEncodeDir(s.dir);
  }

  /** A remount brings the cached directory back exactly when it was on the device. */
  lemma RemountRestoresIff(s: State, s': State)
    requires Inv(s) && s.initialized && MountStep(s, 0, s')
    ensures s'.dir == s.dir <==> OnDevice(s)
  {
    DecodeEncodeDir(s.dir);
    EncodeDecodeDir(DirBytes(s.data));
  }

  lemma OpenKeeps(s: State, name: CString, r: int, s': State)
    requires Inv(s) && OpenStep(s, name, r, s')
    ensures Inv(s')
  {
    if s.initialized && s' != s {
      var idx :| 0 <= idx && Finds(s.dir, name, idx) && OpensAt(s, idx, r, s');
      forall f | 0 <= f < SLOTS && s.fds[f].inUse ensures s.fds[f].dirIndex != idx {
        assert !OpenOn(s.fds, f, idx);
      }
      assert Named(s.dir, idx, name);
    }
  }

  lemma CloseKeeps(s: State, fd: int, s': State)
    requires Inv(s) && CloseStep(s, fd, s')
    ensures Inv(s')
  {
  }

  /** Where an accepted write lands. */
  lemma WriteLands(s: State, fd: int, offset: U64, n: nat)
    requires Inv(s) && Usable(s, fd) && 0 < n && offset + n < TWO_TO_64 && Accepts(s.fds[fd], offset, n)
    ensures var idx := s.fds[fd].dirIndex;
            && Live(s.dir, idx) && s.fds[fd] == OpenFd(s.dir, idx) && ExtentOk(s.dir, idx, |s.data|)
            && offset + n <= s.dir[idx].reserved * BLOCK
            && BLOCK <= Address(s.fds[fd], offset) == s.dir[idx].start * BLOCK + offset
  {
    var idx := s.fds[fd].dirIndex;
    assert ExtentOk(s.dir, idx, |s.data|);
    AddressPlain(s.dir, |s.data|, idx, offset);
  }

  /** Changing only data blocks keeps the invariant. */
  lemma DataKeeps(s: State, s': State)
    requires Inv(s) && s' == s.(data := s'.data, badWrites := s'.badWrites, badReads := s'.badReads)
    requires |s'.data| == |s.data| && forall i | 0 <= i < |s.data| && i < BLOCK :: s'.data[i] == s.data[i]
    ensures Inv(s')
  {
    FrontDecides(s.data, s'.data);
  }

  lemma FullWriteKeeps(s: State, fd: int, at: U64, src: seq<Byte>, end: U64, s': State)
    requires Inv(s) && Usable(s, fd) && BLOCK <= at && FullWrite(s, fd, at, src, end, s')
    requires var e := s.dir[s.fds[fd].dirIndex];
             end <= e.reserved * BLOCK && e.start * BLOCK + end <= |s.data|
    ensures Inv(s')
  {
    var mid := s.(data := Splice(s.data, at, src));
    DataKeeps(s, mid);
    if end > s.fds[fd].size {
      GrowKeeps(mid, fd, end, s');
    }
  }

  lemma TornWriteKeeps(s: State, at: U64, src: seq<Byte>, s': State)
    requires Inv(s) && BLOCK <= at && TornWrite(s, at, src, s')
    ensures Inv(s')
  {
    DataKeeps(s, s');
  }

  /** A write without wrap-around is refused, or torn, or complete. */
  lemma WriteCases(s: State, fd: int, offset: U64, src: seq<Byte>, r: int, s': State)
    requires WriteStep(s, fd, offset, src, r, s') && offset + |src| < TWO_TO_64
    ensures s' != s ==>
              && Usable(s, fd) && src != [] && Accepts(s.fds[fd], offset, |src|)
              && (|| TornWrite(s, Address(s.fds[fd], offset), src, s')
                  || FullWrite(s, fd, Address(s.fds[fd], offset), src, offset + |src|, s'))
  {
    hide TornWrite, FullWrite, Accepts, Address;
  }

  lemma WriteKeeps(s: State, fd: int, offset: U64, src: seq<Byte>, r: int, s': State)
    requires Inv(s) && WriteStep(s, fd, offset, src, r, s')
    requires offset + |src| < TWO_TO_64
    ensures Inv(s')
  {
    hide Inv, WriteStep, TornWrite, Accepts, Address;
    WriteCases(s, fd, offset, src, r, s');
    if s' != s {
      WriteLands(s, fd, offset, |src|);
      var at := Address(s.fds[fd], offset);
      if TornWrite(s, at, src, s') {
        TornWriteKeeps(s, at, src, s');
      } else {
        FullWriteKeeps(s, fd, at, src, offset + |src|, s');
      }
    }
  }

  /** Recording a larger size, in the descriptor and the directory. */
  lemma GrowKeeps(s: State, fd: int, size: U64, s': State)
    requires Inv(s) && Usable(s, fd)
    requires var idx := s.fds[fd].dirIndex;
             size <= s.dir[idx].reserved * BLOCK && s.dir[idx].start * BLOCK + size <= |s.data|
    requires s' == Grow(s, fd, size).(data := s'.data, badWrites := s'.badWrites)
    requires exists ok :: Flushed(s.data, s.badWrites, Grow(s, fd, size).dir, ok, s'.data, s'.badWrites)
    ensures Inv(s')
  {
    var idx := s.fds[fd].dirIndex;
    var ok :| Flushed(s.data, s.badWrites, s'.dir, ok, s'.data, s'.badWrites);
    FlushKeepsRest(s.data, s.badWrites, s'.dir, ok, s'.data, s'.badWrites);
    GrowKeepsWellFormed(s.dir, |s.data|, idx, size);
    GrownLive(s.dir, idx, size);
    forall f | 0 <= f < SLOTS && s'.fds[f].inUse
      ensures Live(s'.dir, s'.fds[f].dirIndex) && s'.fds[f] == OpenFd(s'.dir, s'.fds[f].dirIndex)
    {
      assert s.fds[f].dirIndex == idx ==> f == fd;
    }
  }

  // ---- the end of the device ----

  /** What a write that succeeds, with a flush that does, leaves. */
  ghost function AfterWrite(s: State, fd: int, at: nat, src: seq<Byte>, end: U64): State
    requires 0 <= fd < SLOTS && at + |src| <= |s.data| && HasRoom(s.data)
  {
    var mid := s.(data := Splice(s.data, at, src));
    if end <= s.fds[fd].size then mid
    else
      var grown := Grow(mid, fd, end);
      grown.(data := Splice(mid.data, DIR_OFFSET, EncodeDir(grown.dir)))
  }

  lemma AfterWriteIsFull(s: State, fd: int, at: U64, src: seq<Byte>, end: U64)
    requires 0 <= fd < SLOTS && at + |src| <= |s.data| && HasRoom(s.data)
    ensures FullWrite(s, fd, at, src, end, AfterWrite(s, fd, at, src, end))
  {
    hide EncodeDir;
    var mid := s.(data := Splice(s.data, at, src));
    if end > s.fds[fd].size {
      var t := AfterWrite(s, fd, at, src, end);
      assert Flushed(mid.data, s.badWrites, Grow(mid, fd, end).dir, true, t.data, t.badWrites);
    }
  }

  /** An accepted write can succeed exactly when its range lies on the device. */
  lemma WriteSucceedsIff(s: State, fd: int, offset: U64, src: seq<Byte>)
    requires Inv(s) && Usable(s, fd) && s.writable && src != [] && offset + |src| < TWO_TO_64
    requires Accepts(s.fds[fd], offset, |src|)
    ensures (exists s' :: WriteStep(s, fd, offset, src, |src|, s'))
            <==> s.dir[s.fds[fd].dirIndex].start * BLOCK + offset + |src| <= |s.data|
  {
    hide Inv, Accepts, Address, Live, ExtentOk, WriteStep, FullWrite;
    WriteLands(s, fd, offset, |src|);
    var at := Address(s.fds[fd], offset);
    if at + |src| <= |s.data| {
      InvHasRoom(s);
      AfterWriteIsFull(s, fd, at, src, offset + |src|);
      FullIsWrite(s, fd, offset, src, AfterWrite(s, fd, at, src, offset + |src|));
    } else {
      forall s' ensures !WriteStep(s, fd, offset, src, |src|, s') {
        if WriteStep(s, fd, offset, src, |src|, s') {
          SucceedsOnDevice(s, fd, offset, src, s');
        }
      }
    }
  }

  lemma FullIsWrite(s: State, fd: int, offset: U64, src: seq<Byte>, s': State)
    requires Usable(s, fd) && s.writable && src != [] && offset + |src| < TWO_TO_64
    requires Accepts(s.fds[fd], offset, |src|) && FullWrite(s, fd, Address(s.fds[fd], offset), src, offset + |src|, s')
    ensures WriteStep(s, fd, offset, src, |src|, s')
  {
    hide Accepts, FullWrite, Address, TornWrite;
  }

  lemma SucceedsOnDevice(s: State, fd: int, offset: U64, src: seq<Byte>, s': State)
    requires Usable(s, fd) && src != [] && WriteStep(s, fd, offset, src, |src|, s')
    ensures Address(s.fds[fd], offset) + |src| <= |s.data|
  {
    hide Accepts, Address, TornWrite;
  }

  lemma InvHasRoom(s: State)
    requires Inv(s)
    ensures HasTag(s.data) && HasRoom(s.data) && |s.data| < TWO_TO_64
  {
  }

  /** Every accepted write can succeed exactly when the whole reservation lies on the device. */
  lemma AllWritesSucceedIff(s: State, fd: int)
    requires Inv(s) && Usable(s, fd) && s.writable
    ensures var e := s.dir[s.fds[fd].dirIndex];
            (forall offset: U64, src: seq<Byte> | src != [] && offset + |src| < TWO_TO_64 && Accepts(s.fds[fd], offset, |src|) ::
               exists s' :: WriteStep(s, fd, offset, src, |src|, s'))
            <==> (e.start + e.reserved) * BLOCK <= |s.data|
  {
    hide WriteStep;
    var idx := s.fds[fd].dirIndex;
    var e := s.dir[idx];
    assert ExtentOk(s.dir, idx, |s.data|) && s.fds[fd] == OpenFd(s.dir, idx);
    hide Inv, Live;
    if (e.start + e.reserved) * BLOCK <= |s.data| {
      forall offset: U64, src: seq<Byte> | src != [] && offset + |src| < TWO_TO_64 && Accepts(s.fds[fd], offset, |src|)
        ensures exists s' :: WriteStep(s, fd, offset, src, |src|, s')
      {
        WriteLands(s, fd, offset, |src|);
        WriteSucceedsIff(s, fd, offset, src);
      }
    } else {
      var offset: U64 := e.reserved * BLOCK - 1;
      assert offset + 1 < TWO_TO_64 && Accepts(s.fds[fd], offset, |[0]|);
      WriteSucceedsIff(s, fd, offset, [0]);
    }
  }

  /** The allocator finds a run on the device exactly when there is one. */
  lemma RunOnDeviceIff(dir: Dir, n: U64, start: U64, len: nat)
    requires n >= 1 && Allocates(dir, n, start) && len < TWO_TO_64
    ensures (start + n) * BLOCK <= len <==> exists b :: LowestFit(dir, n, b) && (b + n) * BLOCK <= len
  {
    if b :| LowestFit(dir, n, b) && (b + n) * BLOCK <= len {
      assert start + n < TWO_TO_64;
      assert start <= b;
    }
  }

  /**
   * A create is refused, or safe: an end marker follows the slot it takes, and its run
   * can be addressed.
   */
  ghost predicate CreateGuard(s: State, name: CString, blocks: U64) {
    || CreateRefused(s, name)
    || (&& (forall slot | 0 <= slot && FreeSlot(s.dir, slot) :: EndFollows(s.dir, slot))
        && (exists b :: LowestFit(s.dir, Max(blocks, 1), b) && b + Max(blocks, 1) <= MAX_BLOCK))
  }

  lemma CreateKeeps(s: State, name: CString, blocks: U64, r: int, s': State)
    requires Inv(s) && CreateStep(s, name, blocks, r, s') && CreateGuard(s, name, blocks)
    ensures Inv(s')
  {
    if !CreateRefused(s, name) {
      var n := Max(blocks, 1);
      var slot, start :| CreatesIn(s, name, n, slot, start, r, s');
      WellFormedIsSane(s.dir, |s.data|);
      CreateKeepsWellFormedIff(s.dir, |s.data|, slot, name, start, n);
      FlushKeepsRest(s.data, s.badWrites, s'.dir, r == 0, s'.data, s'.badWrites);
      assert NewEntry(name, start, n).name[0] == name[0] && name[0] in name;
      CreatedLive(s.dir, slot, NewEntry(name, start, n));
      assert Live(s.dir, slot) ==> !EndAt(s.dir, slot);
      assert forall j | Live(s.dir, j) :: Live(s'.dir, j) && s'.dir[j] == s.dir[j];
    }
  }

  lemma DeleteKeepsMirror(dir: Dir, fds: Fds, idx: int)
    requires FdsMirror(dir, fds) && Live(dir, idx)
    ensures FdsMirror(DeletedDir(dir, idx), CloseOn(fds, idx))
  {
    DeletedLive(dir, idx);
    forall f | 0 <= f < SLOTS && CloseOn(fds, idx)[f].inUse
      ensures CloseOn(fds, idx)[f] == fds[f] && fds[f].dirIndex != idx
    {
      assert !OpenOn(fds, f, idx);
    }
  }

  lemma DeleteAtKeeps(s: State, idx: int, r: int, s': State)
    requires Inv(s) && s.initialized && Live(s.dir, idx) && DeletesAt(s, idx, r, s')
    ensures Inv(s')
  {
    hide FdsMirror, Flushed, CloseOn;
    DeletedLive(s.dir, idx);
    FewerFiles(s.dir, s'.dir, |s.data|);
    DeleteKeepsMirror(s.dir, s.fds, idx);
    FlushKeepsRest(s.data, s.badWrites, s'.dir, r == 0, s'.data, s'.badWrites);
  }

  lemma DeleteKeeps(s: State, name: CString, r: int, s': State)
    requires Inv(s) && DeleteStep(s, name, r, s')
    ensures Inv(s')
  {
    hide Inv, DeletesAt;
    if s' != s && s.initialized {
      var idx :| 0 <= idx && Finds(s.dir, name, idx) && DeletesAt(s, idx, r, s');
      assert Named(s.dir, idx, name);
      DeleteAtKeeps(s, idx, r, s');
    }
  }

  /** A successful sync puts the directory on the device, whatever failed before. */
  lemma SyncKeeps(s: State, r: int, s': State)
    requires Inv(s) && SyncStep(s, r, s')
    ensures Inv(s') && (r == 0 ==> s'.initialized && OnDevice(s') && s'.dir == s.dir)
  {
    if s.initialized {
      FlushKeepsRest(s.data, s.badWrites, s'.dir, r == 0, s'.data, s'.badWrites);
    }
  }
}
