/** A log flush that reports success and leaves a file whose replay is not the ring. */
module KernelLogInstances {
  import opened Bytes
  import opened Directory
  import opened Volume
  import opened VolumeSafety
  import opened VolumeSteps
  import opened VolumeInstances
  import opened FlatFiles
  import opened FlatSteps
  import opened KernelLog

  lemma {:induction false} ConcatBoth(a: seq<Record>, b: seq<Record>)
    ensures Concat(a + b) == Concat(a) + Concat(b)
    decreases b
  {
    if b == [] {
      assert a + b == a;
    } else {
      var n := |b| - 1;
      ConcatBoth(a, b[..n]);
      assert (a + b)[..|a + b| - 1] == a + b[..n];
    }
  }

  /** A complete write inside what the log holds replaces that part. */
  lemma OverwriteHolds(s: State, fd: int, a: seq<Byte>, was: seq<Byte>, src: seq<Byte>, c: seq<Byte>, s': State)
    requires OpenOnLog(s, fd) && LogHolds(s, a + was + c) && |src| == |was| > 0 && |a + was + c| < TWO_TO_64
    requires WriteStep(s, fd, |a|, src, |src|, s')
    ensures OpenOnLog(s', fd) && LogHolds(s', a + src + c)
  {
    hide WriteStep, Inv, Usable, NameOf, Files;
    WriteRefines(s, fd, |a|, src, |src|, s');
    WriteKeepsDescriptor(s, fd, |a|, src, |src|, s');
    var f := Files(s)[LOG_NAME];
    SpliceInside(f.extent, a, was, src, c);
  }

  lemma SpliceInside(extent: seq<Byte>, a: seq<Byte>, was: seq<Byte>, src: seq<Byte>, c: seq<Byte>)
    requires |src| == |was| && a + was + c <= extent
    ensures a + src + c <= Splice(extent, |a|, src)
  {
  }

  /** Inside what the log holds there is room on the device. */
  lemma CanOverwrite(s: State, fd: int, image: seq<Byte>, offset: nat, src: seq<Byte>) returns (t: State)
    requires OpenOnLog(s, fd) && s.writable && LogHolds(s, image) && |image| <= BLOCK
    requires src != [] && offset + |src| <= |image|
    ensures WriteStep(s, fd, offset, src, |src|, t) && t.writable
  {
    var idx := s.fds[fd].dirIndex;
    SizeOfLog(s, fd);
    assert ExtentOk(s.dir, idx, |s.data|) && s.fds[fd] == OpenFd(s.dir, idx);
    FitsOneBlock(s.fds[fd], offset, |src|);
    WriteSucceedsIff(s, fd, offset, src);
    t :| WriteStep(s, fd, offset, src, |src|, t);
    WriteKeepsDescriptor(s, fd, offset, src, |src|, t);
  }

  /** A write that fails without moving a sector. */
  lemma CanFail(s: State, fd: int, offset: U64, src: seq<Byte>)
    requires OpenOnLog(s, fd) && s.writable && src != [] && offset + |src| <= BLOCK
    ensures WriteStep(s, fd, offset, src, -1, s.(badWrites := s.badWrites + 1))
  {
    var idx := s.fds[fd].dirIndex;
    assert ExtentOk(s.dir, idx, |s.data|) && s.fds[fd] == OpenFd(s.dir, idx);
    FitsOneBlock(s.fds[fd], offset, |src|);
    hide Inv, Accepts, FullWrite, Live, ExtentOk;
    assert TornWrite(s, Address(s.fds[fd], offset), src, s.(badWrites := s.badWrites + 1));
  }

  /** `i` new records over old ones. */
  function Mix(records: seq<Record>, was: seq<Record>, i: nat): (m: seq<Record>)
    requires i <= |records| == |was|
    ensures |m| == |records|
  {
    records[..i] + was[i..]
  }

  lemma MixSplits(hdr: seq<Byte>, records: seq<Record>, was: seq<Record>, i: nat)
    requires i < |records| == |was|
    ensures var a := hdr + Concat(records[..i]);
            var c := Concat(was[i + 1..]);
            && hdr + Concat(Mix(records, was, i)) == a + was[i] + c
            && hdr + Concat(Mix(records, was, i + 1)) == a + records[i] + c
  {
    hide Concat;
    var a, c := records[..i], was[i + 1..];
    assert Mix(records, was, i) == a + [was[i]] + c;
    assert Mix(records, was, i + 1) == a + [records[i]] + c;
    RecordBetween(hdr, a, was[i], c);
    RecordBetween(hdr, a, records[i], c);
  }

  lemma RecordBetween(hdr: seq<Byte>, a: seq<Record>, r: Record, c: seq<Record>)
    ensures hdr + Concat(a + [r] + c) == hdr + Concat(a) + r + Concat(c)
  {
    hide Concat;
    ConcatBoth(a + [r], c);
    ConcatBoth(a, [r]);
    OneRecord(r);
    assert hdr + (Concat(a) + r + Concat(c)) == hdr + Concat(a) + r + Concat(c);
  }

  lemma OneRecord(r: Record)
    ensures Concat([r]) == r
  {
    assert Concat([]) == [];
    assert [r][..0] == [];
  }

  lemma {:induction false} SomeRecords(s: State, fd: int, hdr: seq<Byte>, records: seq<Record>, was: seq<Record>, i: nat)
    returns (t: State)
    requires OpenOnLog(s, fd) && s.writable && |hdr| == HEADER && i <= |records| == |was| <= CAPACITY
    requires LogHolds(s, hdr + Concat(was))
    ensures RecordsWritten(s, fd, records, i, t) && OpenOnLog(t, fd) && t.writable
    ensures LogHolds(t, hdr + Concat(Mix(records, was, i)))
    decreases i
  {
    hide OpenOnLog, LogHolds, WriteStep, Concat;
    if i == 0 {
      t := s;
      assert Mix(records, was, 0) == was;
    } else {
      var k := i - 1;
      var u := SomeRecords(s, fd, hdr, records, was, k);
      MixSplits(hdr, records, was, k);
      var a, c := hdr + Concat(records[..k]), Concat(was[i..]);
      t := CanOverwrite(u, fd, a + was[k] + c, |a|, records[k]);
      OverwriteHolds(u, fd, a, was[k], records[k], c, t);
      assert LastWritten(s, fd, records, i, u, t);
    }
  }

  lemma HeaderOver(t: State, fd: int, head: nat, head': nat, was: seq<Record>) returns (u: State)
    requires OpenOnLog(t, fd) && t.writable && Logged(t, head', was)
    ensures WriteStep(t, fd, 0, HeaderBytes(|was|, head), HEADER, u) && OpenOnLog(u, fd) && u.writable
    ensures LogHolds(u, HeaderBytes(|was|, head) + Concat(was))
  {
    hide OpenOnLog, LogHolds, WriteStep, Concat, HeaderBytes;
    var hdr, hdr', c := HeaderBytes(|was|, head), HeaderBytes(|was|, head'), Concat(was);
    assert [] + hdr' + c == Image(head', was) && [] + hdr + c == hdr + c;
    u := CanOverwrite(t, fd, [] + hdr' + c, 0, hdr);
    OverwriteHolds(t, fd, [], hdr', hdr, c, u);
  }

  /**
   * On every volume with an older log of as many records: a flush can write the header
   * and `i` records, fail on the next, return 0, and leave a file whose replay shows those
   * `i` records and then the old ones.
   */
  lemma StaleReplay(s: State, fd: int, t: State, head: nat, records: seq<Record>, head': nat, was: seq<Record>, i: nat)
    returns (s': State)
    requires OpenedLog(s, fd, t) && OpenOnLog(t, fd) && t.writable && Logged(t, head', was)
    requires i < |records| == |was|
    ensures StoreStep(s, head, records, i, s') && Inv(s') && ShownBy(s') == Mix(records, was, i)
  {
    hide OpenOnLog, LogHolds, WriteStep, Concat, HeaderBytes, Inv, Shown, RecordsWritten, OpenedLog;
    var hdr := HeaderBytes(|records|, head);
    var u := HeaderOver(t, fd, head, head', was);
    var v := SomeRecords(u, fd, hdr, records, was, i);
    var w := v.(badWrites := v.badWrites + 1);
    CanFail(v, fd, HEADER + RECORD * i, records[i]);
    assert ShortWrite(v, fd, records, i, -1, w);
    assert ImageTail(u, fd, records, i, v, w);
    FailureKeeps(v, fd, HEADER + RECORD * i, records[i], hdr + Concat(Mix(records, was, i)), w);
    s' := w.(fds := w.fds[fd := w.fds[fd].(inUse := false)]);
    CloseAfter(w, fd, hdr + Concat(Mix(records, was, i)), s');
    assert ImageWritten(t, fd, head, records, i, w);
    LoggedShown(s', head, Mix(records, was, i));
  }

  lemma FailureKeeps(v: State, fd: int, offset: U64, src: seq<Byte>, image: seq<Byte>, w: State)
    requires OpenOnLog(v, fd) && LogHolds(v, image) && offset + |src| < TWO_TO_64 && WriteStep(v, fd, offset, src, -1, w)
    requires w == v.(badWrites := w.badWrites)
    ensures OpenOnLog(w, fd) && LogHolds(w, image) && 0 <= fd < SLOTS
  {
    WriteLog(v, fd, offset, src, -1, w);
    SameFiles(v, w);
    hide Inv, Files;
  }

  lemma CloseAfter(w: State, fd: int, image: seq<Byte>, s': State)
    requires OpenOnLog(w, fd) && LogHolds(w, image) && 0 <= fd < SLOTS
    requires s' == w.(fds := w.fds[fd := w.fds[fd].(inUse := false)])
    ensures CloseStep(w, fd, s') && Inv(s') && LogHolds(s', image)
  {
    hide Inv, Files;
    CloseLog(w, fd, s');
    SameLog(w, w, s', image);
  }

  // ---- one such volume ----

  /** A directory with nothing but the log file, at block 1. */
  ghost predicate LogOnly(dir: Dir, size: U64) {
    dir[0] == Entry(Padded(LOG_NAME), 1, 1, size, 0) && forall i | 1 <= i < SLOTS :: EndAt(dir, i)
  }

  function LogDir(size: U64): (d: Dir)
    ensures LogOnly(d, size)
  {
    BlankDir()[0 := Entry(Padded(LOG_NAME), 1, 1, size, 0)]
  }

  lemma LogOnlyFacts(dir: Dir, size: U64, len: int)
    requires LogOnly(dir, size) && size <= BLOCK && BLOCK + size <= len
    ensures WellFormed(dir, len) && Text(dir[0].name) == LOG_NAME && Finds(dir, LOG_NAME, 0)
    ensures forall i :: Live(dir, i) <==> i == 0
  {
    TextOfPadded(LOG_NAME);
    LogNameClips();
    hide Text, Padded, LogOnly;
    LogOnlyLive(dir, size);
  }

  lemma LogOnlyLive(dir: Dir, size: U64)
    requires LogOnly(dir, size)
    ensures Normalised(dir) && dir[0] == Entry(Padded(LOG_NAME), 1, 1, size, 0)
    ensures forall i :: Live(dir, i) <==> i == 0
  {
    FirstOfPadded(LOG_NAME);
    hide Padded, Text;
    assert !EndAt(dir, 0);
    forall i ensures Live(dir, i) <==> i == 0 {
      if 1 <= i < SLOTS {
        assert EndAt(dir, i);
      }
    }
  }

  /** A mounted volume whose log file holds these records. */
  function LogVolume(len: nat, dir: Dir, was: seq<Record>): (s: State)
    requires BLOCK + BLOCK <= len < TWO_TO_64 && |was| <= CAPACITY
    ensures |s.data| == len && s.initialized && s.writable && s.fds == Closed() && s.dir == dir
  {
    var s := Mounted(len, dir);
    s.(data := Splice(s.data, BLOCK, Image(0, was)))
  }

  lemma LogVolumeIsGood(len: nat, dir: Dir, was: seq<Record>)
    requires BLOCK + BLOCK <= len < TWO_TO_64 && |was| <= CAPACITY && LogOnly(dir, HEADER + RECORD * |was|)
    ensures Inv(LogVolume(len, dir, was)) && Logged(LogVolume(len, dir, was), 0, was)
  {
    hide EncodeDir, WellFormed, Concat, HeaderBytes, LogOnly, Live, BlankData;
    var s0, s := Mounted(len, dir), LogVolume(len, dir, was);
    LogOnlyFacts(dir, HEADER + RECORD * |was|, len);
    LogOnlyLive(dir, HEADER + RECORD * |was|);
    MountedIsGood(len, dir);
    DataKeeps(s0, s);
    FileOfSlot(s, 0);
    LogExtent(dir, s0.data, Image(0, was));
  }

  lemma LogExtent(dir: Dir, data: seq<Byte>, image: seq<Byte>)
    requires dir[0].start == 1 && dir[0].reserved == 1 && |data| >= 2 * BLOCK && |image| <= BLOCK
    ensures image <= Extent(dir, Splice(data, BLOCK, image), 0)
  {
  }

  /** On it, the flush of other records can return 0 and leave a replay that is not the ring. */
  lemma FlushReportsSuccess(len: nat, dir: Dir, records: seq<Record>, was: seq<Record>, head: nat, i: nat)
    returns (s': State)
    requires i < |records| == |was| <= CAPACITY && records[i] != was[i]
    requires BLOCK + BLOCK <= len < TWO_TO_64 && LogOnly(dir, HEADER + RECORD * |was|)
    ensures var s := LogVolume(len, dir, was);
            && Inv(s) && CreateGuard(s, LOG_NAME, 1) && StoreStep(s, head, records, i, s')
            && Inv(s') && ShownBy(s') == Mix(records, was, i) != records
  {
    hide Inv, LogHolds, Concat, HeaderBytes, EncodeDir, Files, LogOnly;
    hide Live, CreateGuard, StoreStep, Shown, OpenStep, Finds, LogVolume;
    var s := LogVolume(len, dir, was);
    var t := s.(fds := s.fds[0 := OpenFd(s.dir, 0)]);
    LogVolumeIsGood(len, dir, was);
    LogOnlyFacts(dir, HEADER + RECORD * |was|, len);
    OpensFirst(s, LOG_NAME, 0);
    OpenLog(s, 0, t);
    LogThereIsSafe(s);
    SameLog(s, s, t, Image(0, was));
    s' := StaleReplay(s, 0, t, head, records, 0, was, i);
    assert Mix(records, was, i)[i] == was[i];
  }
}
