/** The persistent kernel log (kernel/klog.c): a ring of records, flushed to a file and replayed at boot. */
module KernelLog {
  import opened Bytes
  import opened SectorDisk
  import opened Directory
  import opened Allocator
  import opened Volume
  import opened VolumeSafety
  import opened VolumeSteps
  import opened VolumeRuns
  import opened VolumeDurability
  import opened Tables
  import opened FlatFiles
  import opened FlatSteps
  import opened Filesystem

  const CAPACITY: int := 128
  const THRESHOLD: int := 96
  /** Time stamp, level and text, padded to a multiple of eight. */
  const RECORD: int := 272
  const HEADER: int := 16
  const MAGIC: int := 0x4B4C_4F47

  type Record = r: seq<Byte> | |r| == RECORD witness seq(RECORD, _ => 0)

  /** "klog.dat" */
  const LOG_NAME: CString := [107, 108, 111, 103, 46, 100, 97, 116]

  // ---- the file ----

  function HeaderBytes(count: nat, head: nat): (h: seq<Byte>)
    ensures |h| == HEADER
  {
    ToLittleEndian(MAGIC, 4) + ToLittleEndian(count, 4) + ToLittleEndian(head, 4) + ToLittleEndian(0, 4)
  }

  function Concat(records: seq<Record>): (b: seq<Byte>)
    ensures |b| == RECORD * |records|
  {
    if records == [] then [] else Concat(records[..|records| - 1]) + records[|records| - 1]
  }

  function Image(head: nat, records: seq<Record>): seq<Byte> { HeaderBytes(|records|, head) + Concat(records) }

  /** The log file begins with `image`. */
  ghost predicate LogHolds(s: State, image: seq<Byte>) {
    && Inv(s) && LOG_NAME in Files(s)
    && var f := Files(s)[LOG_NAME];
       |image| <= f.size && |image| <= |f.extent| && f.extent[..|image|] == image
  }

  /** Descriptor `fd` is open on the log file. */
  ghost predicate OpenOnLog(s: State, fd: int) { Inv(s) && Usable(s, fd) && NameOf(s, fd) == LOG_NAME }

  /** A mounted writable volume that has the log file, or a directory slot for it. */
  ghost predicate CanStore(s: State)
    requires Inv(s)
  {
    s.initialized && s.writable && (LOG_NAME in Files(s) || !FreeSlot(s.dir, -1))
  }

  /** Failed transfers are only ever added... */
  predicate Counts(s: State, s': State) { s.badWrites <= s'.badWrites && s.badReads <= s'.badReads }

  /** ... and none was. */
  predicate NoFailure(s: State, s': State) { s'.badWrites == s.badWrites && s'.badReads == s.badReads }

  lemma WriteKeepsDescriptor(s: State, fd: int, offset: U64, src: seq<Byte>, r: int, s': State)
    requires WriteStep(s, fd, offset, src, r, s') && Usable(s, fd)
    ensures Usable(s', fd) && NameOf(s', fd) == NameOf(s, fd)
    ensures Counts(s, s')
    ensures s'.writable == s.writable && (r > 0 ==> s.writable)
  {
  }

  /** A write at the end of what the log holds extends it. */
  lemma AppendHolds(s: State, fd: int, image: seq<Byte>, src: seq<Byte>, longer: seq<Byte>, r: int, s': State)
    requires OpenOnLog(s, fd) && |image| + |src| < TWO_TO_64 && src != [] && longer == image + src
    requires image == [] || LogHolds(s, image)
    requires WriteStep(s, fd, |image|, src, r, s') && r == |src|
    ensures OpenOnLog(s', fd) && LogHolds(s', longer)
  {
    WriteRefines(s, fd, |image|, src, r, s');
    WriteKeepsDescriptor(s, fd, |image|, src, r, s');
    hide WriteStep, Inv, Usable, NameOf, Files;
    var f, f' := Files(s)[LOG_NAME], Files(s')[LOG_NAME];
    assert f' == FlatWrite(f, |image|, src);
    assert f'.extent[..|longer|] == f.extent[..|image|] + src;
  }

  /** The log fits one block, so a write into it fails only with a transfer. */
  lemma WriteFailsWithTransfer(s: State, fd: int, offset: U64, src: seq<Byte>, r: int, s': State)
    requires OpenOnLog(s, fd) && s.writable && src != [] && offset + |src| <= BLOCK
    requires WriteStep(s, fd, offset, src, r, s') && r != |src|
    ensures !NoFailure(s, s')
  {
    var idx := s.fds[fd].dirIndex;
    assert ExtentOk(s.dir, idx, |s.data|) && s.fds[fd] == OpenFd(s.dir, idx);
    FitsOneBlock(s.fds[fd], offset, |src|);
    hide Inv, FdsMirror;
  }

  lemma FitsOneBlock(f: Fd, offset: U64, n: nat)
    requires 1 <= f.reserved && f.start + f.reserved <= MAX_BLOCK && 1 <= f.start && offset + n <= BLOCK
    ensures Accepts(f, offset, n)
  {
  }

  // ---- opening, creating, writing: the log file and the others ----

  /** Every file but the log is as it was. */
  ghost predicate OthersKept(s: State, s': State)
    requires Inv(s) && Inv(s')
  {
    Files(s') - {LOG_NAME} == Files(s) - {LOG_NAME}
  }

  lemma OthersKeptSelf(s: State)
    requires Inv(s)
    ensures OthersKept(s, s)
  {
  }

  /** A change that leaves every file alone. */
  lemma SameLog(s: State, t: State, u: State, image: seq<Byte>)
    requires Inv(s) && Inv(t) && Inv(u) && Files(u) == Files(t)
    ensures OthersKept(s, t) ==> OthersKept(s, u)
    ensures LogHolds(t, image) ==> LogHolds(u, image)
  {
  }

  lemma OthersKeptOn(s: State, t: State, u: State)
    requires Inv(s) && Inv(t) && Inv(u) && OthersKept(s, t) && OthersKept(t, u)
    ensures OthersKept(s, u)
  {
  }

  lemma LogNameClips()
    ensures Clip(LOG_NAME) == LOG_NAME && GoodName(LOG_NAME)
  {
  }

  lemma OpenLog(s: State, r: int, s': State)
    requires Inv(s) && OpenStep(s, LOG_NAME, r, s')
    ensures Inv(s') && Files(s') == Files(s)
    ensures s' == s.(fds := s'.fds)
    ensures if r >= 0 then OpenOnLog(s', r) && LOG_NAME in Files(s') else s' == s
    ensures r < 0 && s.initialized ==> LOG_NAME !in Files(s) && Finds(s.dir, LOG_NAME, -1)
  {
    hide Files, WellFormed, CurrentDir, FdsMirror, OpenOnLog;
    LogNameClips();
    OpenChangesFds(s, r, s');
    if s.initialized {
      if Finds(s.dir, LOG_NAME, -1) {
        NotFoundNotThere(s, LOG_NAME);
      } else {
        OpenFound(s, r, s');
      }
    }
  }

  lemma OpenChangesFds(s: State, r: int, s': State)
    requires Inv(s) && OpenStep(s, LOG_NAME, r, s')
    ensures Inv(s') && Files(s') == Files(s)
    ensures s' == s.(fds := s'.fds) && (r < 0 ==> s' == s) && (r >= 0 ==> s.initialized)
    ensures Finds(s.dir, LOG_NAME, -1) ==> r < 0
  {
    hide Files, Inv;
    OpenKeeps(s, LOG_NAME, r, s');
    SameFiles(s, s');
  }

  lemma OpenFound(s: State, r: int, s': State)
    requires Inv(s) && s.initialized && OpenStep(s, LOG_NAME, r, s') && !Finds(s.dir, LOG_NAME, -1)
    ensures r >= 0 && OpenOnLog(s', r) && LOG_NAME in Files(s')
  {
    hide Files;
    LogNameClips();
    OpenKeeps(s, LOG_NAME, r, s');
    var idx :| 0 <= idx && Finds(s.dir, LOG_NAME, idx);
    OpenSucceeds(s, LOG_NAME, idx, r, s');
    assert Named(s.dir, idx, LOG_NAME);
    FileOfSlot(s', idx);
  }

  lemma CreateLog(s: State, r: int, s': State)
    requires Inv(s) && CreateStep(s, LOG_NAME, 1, r, s')
    requires CreateGuard(s, LOG_NAME, 1)
    ensures Inv(s') && OthersKept(s, s')
    ensures r == 0 ==> s'.initialized && LOG_NAME in Files(s')
    ensures s' == s || LOG_NAME in Files(s')
    ensures s'.initialized == s.initialized && s'.writable == s.writable && Counts(s, s')
    ensures s.initialized && s.writable && Finds(s.dir, LOG_NAME, -1) && !FreeSlot(s.dir, -1) ==> r == 0 || !NoFailure(s, s')
  {
    hide Inv, Files, CreateGuard, FreeSlot, Finds, Allocates, SaneExtents, CreatedDir, NewEntry;
    LogNameClips();
    CreateKeeps(s, LOG_NAME, 1, r, s');
    CreateRefines(s, LOG_NAME, 1, r, s');
  }

  /** A write through a log descriptor, whatever its result. */
  lemma WriteLog(s: State, fd: int, offset: U64, src: seq<Byte>, r: int, s': State)
    requires OpenOnLog(s, fd) && offset + |src| < TWO_TO_64 && WriteStep(s, fd, offset, src, r, s')
    ensures OpenOnLog(s', fd) && OthersKept(s, s') && Counts(s, s')
    ensures s'.writable == s.writable && (r > 0 ==> s.writable) && (r >= |src| > 0 ==> r == |src|)
  {
    hide Inv, Files, WriteStep, FullWrite, TornWrite, Accepts, Address, Usable, NameOf;
    ShortOrFull(s, fd, offset, src, r, s');
    UsableRange(s, fd);
    WriteKeeps(s, fd, offset, src, r, s');
    WriteKeepsDescriptor(s, fd, offset, src, r, s');
    WriteCases(s, fd, offset, src, r, s');
    if s' != s {
      if TornWrite(s, Address(s.fds[fd], offset), src, s') {
        TornWriteRefines(s, fd, offset, src, s');
      } else {
        FullWriteRefines(s, fd, offset, src, s');
      }
    }
  }

  lemma ShortOrFull(s: State, fd: int, offset: U64, src: seq<Byte>, r: int, s': State)
    requires WriteStep(s, fd, offset, src, r, s')
    ensures r >= |src| > 0 ==> r == |src|
  {
    hide FullWrite, TornWrite, Accepts, Address;
  }

  lemma UsableRange(s: State, fd: int)
    requires OpenOnLog(s, fd)
    ensures 0 <= fd < SLOTS && Usable(s, fd)
  {
  }

  lemma OpenHasFile(s: State, fd: int)
    requires OpenOnLog(s, fd)
    ensures LOG_NAME in Files(s)
  {
    FileOfSlot(s, s.fds[fd].dirIndex);
  }

  lemma SizeOfLog(s: State, fd: int)
    requires OpenOnLog(s, fd)
    ensures Inv(s) && Usable(s, fd) && LOG_NAME in Files(s) && s.fds[fd].size == Files(s)[LOG_NAME].size
  {
    FileOfSlot(s, s.fds[fd].dirIndex);
  }

  lemma CloseLog(s: State, fd: int, s': State)
    requires Inv(s) && CloseStep(s, fd, s')
    ensures Inv(s') && Files(s') == Files(s) && NoFailure(s, s')
  {
    CloseKeeps(s, fd, s');
    SameFiles(s, s');
  }

  lemma NothingYet(records: seq<Record>)
    ensures forall b: seq<Byte> :: b + Concat(records[..0]) == b
  {
  }

  lemma NextImage(hdr: seq<Byte>, records: seq<Record>, k: nat)
    requires k < |records|
    ensures hdr + Concat(records[..k + 1]) == (hdr + Concat(records[..k])) + records[k]
  {
    ConcatOne(records, k);
  }

  lemma {:induction false} ConcatOne(records: seq<Record>, k: nat)
    requires k < |records|
    ensures Concat(records[..k + 1]) == Concat(records[..k]) + records[k]
  {
    assert records[..k + 1][..k] == records[..k];
  }

  /** With the log file there, a create of it is refused. */
  lemma LogThereIsSafe(s: State)
    requires Inv(s)
    ensures LOG_NAME in Files(s) ==> CreateGuard(s, LOG_NAME, 1)
  {
    hide Inv, Files, Live;
    LogNameClips();
    if s.initialized && Finds(s.dir, LOG_NAME, -1) {
      NotFoundNotThere(s, LOG_NAME);
    }
  }

  lemma CanStoreWritable(s: State)
    requires Inv(s)
    ensures CanStore(s) ==> s.writable
  {
  }

  // ---- what a flush leaves in the file ----

  /** Opening the log file, creating it first if need be. */
  ghost predicate OpenedLog(s: State, fd: int, s': State) {
    && fd >= 0
    && (|| OpenStep(s, LOG_NAME, fd, s')
        || exists t, u :: OpenStep(s, LOG_NAME, -1, t) && CreateStep(t, LOG_NAME, 1, 0, u) && OpenStep(u, LOG_NAME, fd, s'))
  }

  /** One write of record `k`. */
  ghost predicate RecordWrite(s: State, fd: int, records: seq<Record>, k: nat, r: int, t: State)
    requires k < |records| <= CAPACITY
  {
    WriteStep(s, fd, HEADER + RECORD * k, records[k], r, t)
  }

  /** The first `i` records, one complete write after the other. */
  ghost predicate RecordsWritten(s: State, fd: int, records: seq<Record>, i: nat, t: State)
    requires i <= |records| <= CAPACITY
    decreases i, 0
  {
    if i == 0 then t == s else exists u :: LastWritten(s, fd, records, i, u, t)
  }

  ghost predicate LastWritten(s: State, fd: int, records: seq<Record>, i: nat, u: State, t: State)
    requires 0 < i <= |records| <= CAPACITY
    decreases i - 1, 1
  {
    RecordsWritten(s, fd, records, i - 1, u) && RecordWrite(u, fd, records, i - 1, RECORD, t)
  }

  ghost predicate ShortWrite(s: State, fd: int, records: seq<Record>, k: nat, r: int, t: State)
    requires k < |records| <= CAPACITY
  {
    r < RECORD && RecordWrite(s, fd, records, k, r, t)
  }

  /** The loop ends after the last record, or with a short write of record `i`. */
  ghost predicate ImageTail(s: State, fd: int, records: seq<Record>, i: nat, v: State, t: State)
    requires i <= |records| <= CAPACITY
  {
    && RecordsWritten(s, fd, records, i, v)
    && if i == |records| then t == v else exists r :: ShortWrite(v, fd, records, i, r, t)
  }

  /** Header and records, of which `i` are written in full and the next, if any, is not. */
  ghost predicate ImageWritten(s: State, fd: int, head: nat, records: seq<Record>, i: nat, t: State) {
    && i <= |records| <= CAPACITY
    && exists u, v :: WriteStep(s, fd, 0, HeaderBytes(|records|, head), HEADER, u) && ImageTail(u, fd, records, i, v, t)
  }

  /** A flush that returns 0: `done` is the number of records exactly when no record write was short. */
  ghost predicate StoreStep(s: State, head: nat, records: seq<Record>, done: nat, s': State) {
    exists fd, t, u :: OpenedLog(s, fd, t) && ImageWritten(t, fd, head, records, done, u) && CloseStep(u, fd, s')
  }

  /** A short write at the end of what the log holds leaves that alone. */
  lemma ShortWriteKeeps(s: State, fd: int, image: seq<Byte>, src: seq<Byte>, r: int, s': State)
    requires OpenOnLog(s, fd) && LogHolds(s, image) && |image| + |src| < TWO_TO_64
    requires WriteStep(s, fd, |image|, src, r, s') && r < |src|
    ensures OpenOnLog(s', fd) && LogHolds(s', image)
  {
    WriteLog(s, fd, |image|, src, r, s');
    ShortIsTorn(s, fd, |image|, src, r, s');
    if s' != s {
      TornWriteRefines(s, fd, |image|, src, s');
      hide *;
      PrefixKept(Files(s)[LOG_NAME].extent, |image|, src, Files(s')[LOG_NAME].extent);
    }
  }

  lemma ShortIsTorn(s: State, fd: int, offset: U64, src: seq<Byte>, r: int, s': State)
    requires WriteStep(s, fd, offset, src, r, s') && r < |src|
    ensures s' == s || (Usable(s, fd) && src != [] && Accepts(s.fds[fd], offset, |src|)
                        && TornWrite(s, Address(s.fds[fd], offset), src, s'))
  {
    hide TornWrite, FullWrite, Accepts, Address;
  }

  lemma PrefixKept(extent: seq<Byte>, n: nat, src: seq<Byte>, extent': seq<Byte>)
    requires n <= |extent| && PartlyWritten(extent, n, src, extent')
    ensures extent'[..n] == extent[..n]
  {
  }

  /** What the loop over the records leaves in the file. */
  lemma {:induction false} RecordsHold(s: State, fd: int, hdr: seq<Byte>, records: seq<Record>, i: nat, t: State)
    requires OpenOnLog(s, fd) && |hdr| == HEADER && LogHolds(s, hdr) && |records| <= CAPACITY
    requires i <= |records| && RecordsWritten(s, fd, records, i, t)
    ensures OpenOnLog(t, fd) && LogHolds(t, hdr + Concat(records[..i]))
  {
    hide OpenOnLog, LogHolds, WriteStep, Concat;
    if i == 0 {
      NothingYet(records);
    } else {
      var u :| LastWritten(s, fd, records, i, u, t);
      RecordsHold(s, fd, hdr, records, i - 1, u);
      NextImage(hdr, records, i - 1);
      AppendHolds(u, fd, hdr + Concat(records[..i - 1]), records[i - 1], hdr + Concat(records[..i]), RECORD, t);
    }
  }

  lemma ImageHolds(s: State, fd: int, head: nat, records: seq<Record>, i: nat, t: State)
    requires OpenOnLog(s, fd) && |records| <= CAPACITY && ImageWritten(s, fd, head, records, i, t)
    ensures OpenOnLog(t, fd) && i <= |records| && LogHolds(t, HeaderBytes(|records|, head) + Concat(records[..i]))
  {
    hide OpenOnLog, LogHolds, WriteStep, Concat, HeaderBytes, RecordsWritten;
    var hdr := HeaderBytes(|records|, head);
    var u, v :| WriteStep(s, fd, 0, hdr, HEADER, u) && ImageTail(u, fd, records, i, v, t);
    AppendHolds(s, fd, [], hdr, hdr, HEADER, u);
    RecordsHold(u, fd, hdr, records, i, v);
    if i < |records| {
      var r :| ShortWrite(v, fd, records, i, r, t);
      ShortWriteKeeps(v, fd, hdr + Concat(records[..i]), records[i], r, t);
    }
  }

  lemma OpenedLogIsOpen(s: State, fd: int, t: State)
    requires Inv(s) && CreateGuard(s, LOG_NAME, 1) && OpenedLog(s, fd, t)
    ensures OpenOnLog(t, fd)
  {
    hide Inv, OpenOnLog, OpenStep, CreateStep, CreateGuard, Files;
    if OpenStep(s, LOG_NAME, fd, t) {
      OpenLog(s, fd, t);
    } else {
      var u, v :| OpenStep(s, LOG_NAME, -1, u) && CreateStep(u, LOG_NAME, 1, 0, v) && OpenStep(v, LOG_NAME, fd, t);
      OpenLog(s, -1, u);
      CreateLog(u, 0, v);
      OpenLog(v, fd, t);
    }
  }

  /** After a flush that returned 0 the file holds the header and the records that were written in full. */
  lemma StoreHolds(s: State, head: nat, records: seq<Record>, done: nat, s': State)
    requires Inv(s) && CreateGuard(s, LOG_NAME, 1) && |records| <= CAPACITY && StoreStep(s, head, records, done, s')
    ensures done <= |records| && LogHolds(s', HeaderBytes(|records|, head) + Concat(records[..done]))
  {
    hide Inv, OpenOnLog, CreateGuard, Files, OpenedLog, ImageWritten, LogHolds, CloseStep, HeaderBytes, Concat;
    var fd, t, u :| OpenedLog(s, fd, t) && ImageWritten(t, fd, head, records, done, u) && CloseStep(u, fd, s');
    OpenedLogIsOpen(s, fd, t);
    ImageHolds(t, fd, head, records, done, u);
    OpenIsGood(u, fd);
    CloseLog(u, fd, s');
    SameLog(u, u, s', HeaderBytes(|records|, head) + Concat(records[..done]));
  }

  lemma OpenIsGood(s: State, fd: int)
    requires OpenOnLog(s, fd)
    ensures Inv(s)
  {
  }

  // ---- the ring ----

  /** What the ring keeps of the accepted records: the last 128, oldest first. */
  function Kept(accepted: seq<Record>): (w: seq<Record>)
    ensures |w| == Min(|accepted|, CAPACITY)
  {
    accepted[|accepted| - Min(|accepted|, CAPACITY)..]
  }

  /** `w` is the last 128 of the accepted records, or all of them if there are fewer, in order. */
  ghost predicate LastOf(w: seq<Record>, accepted: seq<Record>) {
    && |w| == (if |accepted| < 128 then |accepted| else 128)
    && forall i | 0 <= i < |w| :: w[i] == accepted[|accepted| - |w| + i]
  }

  lemma KeptIsLast(accepted: seq<Record>)
    ensures LastOf(Kept(accepted), accepted)
  {
  }

  /** Record number `j` lies in slot `j` modulo the capacity. */
  ghost predicate RingHolds(ring: seq<Record>, accepted: seq<Record>)
    requires |ring| == CAPACITY
  {
    forall j | |accepted| - Min(|accepted|, CAPACITY) <= j < |accepted| :: ring[j % CAPACITY] == accepted[j]
  }

  /** Reading from the oldest slot on gives the kept records in order. */
  lemma OldestFirst(ring: seq<Record>, accepted: seq<Record>, i: nat)
    requires |ring| == CAPACITY && RingHolds(ring, accepted) && i < Min(|accepted|, CAPACITY)
    ensures var head := |accepted| % CAPACITY;
            var start := if |accepted| < CAPACITY then 0 else head;
            ring[(start + i) % CAPACITY] == Kept(accepted)[i]
  {
    var n := |accepted|;
    if n >= CAPACITY {
      var j := n - CAPACITY + i;
      assert ring[j % CAPACITY] == accepted[j];
      assert j == CAPACITY * (n / CAPACITY - 1) + (n % CAPACITY + i);
      SameSlot(n % CAPACITY + i, n / CAPACITY - 1);
    } else {
      assert ring[i % CAPACITY] == accepted[i];
    }
  }

  lemma SameSlot(a: nat, k: int)
    requires CAPACITY * k + a >= 0
    ensures (CAPACITY * k + a) % CAPACITY == a % CAPACITY
  {
  }

  lemma RingAdvances(ring: seq<Record>, accepted: seq<Record>, r: Record)
    requires |ring| == CAPACITY && RingHolds(ring, accepted)
    ensures RingHolds(ring[|accepted| % CAPACITY := r], accepted + [r])
  {
    var n := |accepted|;
    var ring', accepted' := ring[n % CAPACITY := r], accepted + [r];
    forall j | n + 1 - Min(n + 1, CAPACITY) <= j < n + 1 ensures ring'[j % CAPACITY] == accepted'[j] {
      if j < n {
        DifferentSlots(j, n);
        assert ring[j % CAPACITY] == accepted[j];
      }
    }
  }

  lemma DifferentSlots(j: nat, n: nat)
    requires n - CAPACITY < j < n
    ensures j % CAPACITY != n % CAPACITY
  {
  }

  // ---- the file as a replay reads it ----

  lemma SliceOfPrefix(extent: seq<Byte>, image: seq<Byte>, offset: nat, n: nat)
    requires image <= extent && offset + n <= |image|
    ensures extent[offset..offset + n] == image[offset..offset + n]
  {
  }

  lemma FourByteRange()
    ensures Power256(4) == TWO_TO_32
  {
    assert Power256(2) == 0x1_0000;
  }

  lemma HeaderDecodes(count: nat, head: nat)
    requires count < TWO_TO_32
    ensures var h := HeaderBytes(count, head);
            FromLittleEndian(h[..4]) == MAGIC && FromLittleEndian(h[4..8]) == count
  {
    hide ToLittleEndian, FromLittleEndian;
    var h := HeaderBytes(count, head);
    assert h[..4] == ToLittleEndian(MAGIC, 4) && h[4..8] == ToLittleEndian(count, 4);
    FourByteRange();
    FromToLittleEndian(MAGIC, 4);
    FromToLittleEndian(count, 4);
  }

  /** The header, byte by byte: the magic, the number of records, the head of the ring, and a reserved word. */
  lemma HeaderLayout(count: nat, head: nat)
    requires count <= 128 && head <= 128
    ensures HeaderBytes(count, head) ==
            [0x47, 0x4F, 0x4C, 0x4B] + [count, 0, 0, 0] + [head, 0, 0, 0] + [0, 0, 0, 0]
  {
    hide ToLittleEndian;
    MagicBytes();
    SmallWord(count);
    SmallWord(head);
    SmallWord(0);
  }

  lemma MagicBytes()
    ensures ToLittleEndian(MAGIC, 4) == [0x47, 0x4F, 0x4C, 0x4B]
  {
    assert ToLittleEndian(0x4B4C, 2) == [0x4C, 0x4B];
  }

  lemma SmallWord(v: nat)
    requires v < 256
    ensures ToLittleEndian(v, 4) == [v, 0, 0, 0]
  {
    assert ToLittleEndian(0, 2) == [0, 0];
  }

  lemma {:induction false} ConcatRecord(records: seq<Record>, i: nat)
    requires i < |records|
    ensures Concat(records)[RECORD * i..RECORD * (i + 1)] == records[i]
    decreases records
  {
    var init := records[..|records| - 1];
    if i < |init| {
      ConcatRecord(init, i);
      assert RECORD * (i + 1) <= |Concat(init)|;
      assert Concat(records)[RECORD * i..RECORD * (i + 1)] == Concat(init)[RECORD * i..RECORD * (i + 1)];
    }
  }

  lemma ImageRecord(hdr: seq<Byte>, records: seq<Record>, i: nat)
    requires |hdr| == HEADER && i < |records|
    ensures (hdr + Concat(records))[HEADER + RECORD * i..HEADER + RECORD * i + RECORD] == records[i]
  {
    hide Concat;
    ConcatRecord(records, i);
    var c := Concat(records);
    assert (hdr + c)[HEADER + RECORD * i..HEADER + RECORD * i + RECORD] == c[RECORD * i..RECORD * (i + 1)];
  }

  /** The file holds a log of these records. */
  ghost predicate Logged(s: State, head: nat, records: seq<Record>) {
    LogHolds(s, Image(head, records)) && |records| <= CAPACITY
  }

  // ---- what a replay shows of a file ----

  /** The records a file has room for behind its header. */
  function Available(f: File): nat { if f.size < HEADER then 0 else (f.size - HEADER) / RECORD }

  function RecordAt(f: File, i: nat): Record
    requires HEADER + RECORD * (i + 1) <= |f.extent|
  {
    f.extent[HEADER + RECORD * i..HEADER + RECORD * i + RECORD]
  }

  function FirstRecords(f: File, n: nat): (records: seq<Record>)
    requires f.size <= |f.extent|
    ensures |records| == Min(n, Available(f))
  {
    seq(Min(n, Available(f)), i requires 0 <= i < Min(n, Available(f)) => RecordAt(f, i))
  }

  /** As many records as the header announces, the file holds and the ring could have had. */
  function Shown(f: File): seq<Record> {
    if f.size < HEADER || f.size > |f.extent| || FromLittleEndian(f.extent[..4]) != MAGIC then []
    else FirstRecords(f, Min(FromLittleEndian(f.extent[4..8]), CAPACITY))
  }

  /** Nothing is shown of a file that is too short or does not begin with the magic... */
  lemma ForeignShowsNothing(f: File)
    requires f.size < 16 || f.size > |f.extent| || f.extent[..4] != [0x47, 0x4F, 0x4C, 0x4B]
    ensures Shown(f) == []
  {
    hide FirstRecords, FromLittleEndian, ToLittleEndian;
    if 16 <= f.size <= |f.extent| {
      ToFromLittleEndian(f.extent[..4]);
      MagicBytes();
    }
  }

  /** ... and of any other the first records of 272 bytes behind its 16-byte header: as many as announced, at most 128, that the file has. */
  lemma ShownExactly(f: File)
    requires 16 <= f.size <= |f.extent| && f.extent[..4] == [0x47, 0x4F, 0x4C, 0x4B]
    ensures var announced := f.extent[4] as int + 0x100 * (f.extent[5] as int)
                             + 0x1_0000 * (f.extent[6] as int) + 0x100_0000 * (f.extent[7] as int);
            |Shown(f)| == Min(Min(announced, 128), (f.size - 16) / 272)
    ensures forall i | 0 <= i < |Shown(f)| :: 16 + 272 * i + 272 <= |f.extent| && Shown(f)[i] == f.extent[16 + 272 * i..16 + 272 * i + 272]
  {
    hide FromLittleEndian, ToLittleEndian;
    FourByteRange();
    MagicBytes();
    FromToLittleEndian(MAGIC, 4);
    var w := f.extent[4..8];
    FourLow(w);
    assert w[4..] == [];
    NoBytes();
  }

  ghost function ShownBy(s: State): seq<Record>
    requires Inv(s)
  {
    if LOG_NAME in Files(s) then Shown(Files(s)[LOG_NAME]) else []
  }

  /** The size of a file on a good volume is inside its extent. */
  lemma FileFits(s: State, name: seq<Byte>)
    requires Inv(s) && name in Files(s)
    ensures Files(s)[name].size <= |Files(s)[name].extent|
  {
    var dir := CurrentDir(s);
    RowsDistinct(dir, s.data);
    var i :| KeyAt(Rows(dir, s.data), i, name);
    assert Live(dir, i) && ExtentOk(dir, i, |s.data|);
    assert Files(s)[name] == FileAt(dir, s.data, i);
  }

  /** A file that holds the header of `n` records and the first `i` of them shows at least those. */
  lemma ImageShown(f: File, head: nat, n: nat, records: seq<Record>)
    requires f.size <= |f.extent| && |records| <= n <= CAPACITY && HEADER + RECORD * |records| <= f.size
    requires f.extent[..HEADER + RECORD * |records|] == HeaderBytes(n, head) + Concat(records)
    ensures records <= Shown(f) && |Shown(f)| <= n
  {
    hide FromLittleEndian, HeaderBytes, Concat;
    var image := HeaderBytes(n, head) + Concat(records);
    HeaderDecodes(n, head);
    ImageFront(f.extent, HeaderBytes(n, head), Concat(records));
    forall i | 0 <= i < |records| ensures RecordAt(f, i) == records[i] {
      ImageRecord(HeaderBytes(n, head), records, i);
      SliceOfPrefix(f.extent, image, HEADER + RECORD * i, RECORD);
    }
  }

  lemma ImageFront(extent: seq<Byte>, hdr: seq<Byte>, c: seq<Byte>)
    requires |hdr| == HEADER && hdr + c <= extent
    ensures extent[..4] == hdr[..4] && extent[4..8] == hdr[4..8]
  {
    assert extent[..HEADER] == hdr;
  }

  /** The replay after a flush begins with the records written in full. */
  lemma StoreShown(s: State, head: nat, records: seq<Record>, done: nat)
    requires done <= |records| <= CAPACITY && LogHolds(s, HeaderBytes(|records|, head) + Concat(records[..done]))
    ensures records[..done] <= ShownBy(s) && |ShownBy(s)| <= |records|
  {
    hide Inv, Files, Shown, HeaderBytes, Concat;
    FileFits(s, LOG_NAME);
    ImageShown(Files(s)[LOG_NAME], head, |records|, records[..done]);
  }

  /** A replay of a complete log shows exactly its records. */
  lemma LoggedShown(s: State, head: nat, records: seq<Record>)
    requires Logged(s, head, records)
    ensures ShownBy(s) == records
  {
    hide ShownBy, HeaderBytes, Concat, LogHolds;
    assert records[..|records|] == records;
    StoreShown(s, head, records, |records|);
  }

  /** So the replay after a flush that wrote every record shows the ring. */
  lemma FullStoreIsLog(s: State, head: nat, records: seq<Record>)
    requires LogHolds(s, HeaderBytes(|records|, head) + Concat(records[..|records|])) && |records| <= CAPACITY
    ensures Logged(s, head, records) && ShownBy(s) == records
  {
    hide LogHolds, ShownBy, HeaderBytes, Concat;
    assert records[..|records|] == records;
    LoggedShown(s, head, records);
  }

  class KLog {
    const fs: FileSystem
    const ring: array<Record>
    var head: nat
    var count: nat
    var minLevel: int
    var initialized: bool
    var flushing: bool
    /** All records accepted since initialisation. */
    ghost var accepted: seq<Record>

    ghost predicate Valid()
      reads this, ring
    {
      && ring.Length == CAPACITY && !flushing
      && count == Min(|accepted|, CAPACITY) && head == |accepted| % CAPACITY
      && RingHolds(ring[..], accepted)
    }

    /** The filesystem is good, and if the log file has to be created, that is safe. */
    ghost predicate FsReady()
      reads this, fs, fs.disk, fs.dir, fs.fds
    {
      fs.Valid() && Inv(fs.View()) && CreateGuard(fs.View(), LOG_NAME, 1)
    }

    constructor (filesystem: FileSystem)
      ensures fs == filesystem && fresh(ring) && Valid() && accepted == [] && initialized && minLevel == 0
    {
      fs := filesystem;
      ring := new Record[CAPACITY](_ => seq(RECORD, _ => 0));
      head, count, accepted, minLevel := 0, 0, [], 0;
      initialized, flushing := true, false;
    }

    method OpenOrCreate() returns (fd: int)
      requires FsReady()
      modifies fs.dir, fs.fds, fs.disk`data, fs.disk`history, fs.disk`badWrites
      ensures FsReady() && OthersKept(old(fs.View()), fs.View()) && Counts(old(fs.View()), fs.View())
      ensures fd >= 0 ==> OpenOnLog(fs.View(), fd) && OpenedLog(old(fs.View()), fd, fs.View())
      ensures NoFailure(old(fs.View()), fs.View()) && CanStore(old(fs.View())) ==> fd >= 0
    {
      hide Inv, Files, CreateGuard, OpenStep, CreateStep, OthersKept, Finds, FreeSlot;
      ghost var s0 := fs.View();
      OthersKeptSelf(s0);
      fd := fs.Open(LOG_NAME);
      ghost var s1 := fs.View();
      OpenLog(s0, fd, s1);
      if fd < 0 {
        var rc := fs.Create(LOG_NAME, 1);
        ghost var s2 := fs.View();
        CreateLog(s1, rc, s2);
        LogThereIsSafe(s2);
        if rc != 0 {
          return -1;
        }
        fd := fs.Open(LOG_NAME);
        OpenLog(s2, fd, fs.View());
        SameLog(s0, s2, fs.View(), []);
      }
      LogThereIsSafe(fs.View());
      SameLog(s0, s0, s1, []);
    }

    /** Writes the header and the records, oldest first, stopping at the first short write. */
    method WriteImage(fd: int) returns (ok: bool, ghost done: nat)
      requires ring.Length == CAPACITY && RingHolds(ring[..], accepted)
      requires count == Min(|accepted|, CAPACITY) && head == |accepted| % CAPACITY
      requires fs.Valid() && OpenOnLog(fs.View(), fd)
      modifies fs.dir, fs.fds, fs.scratch, fs.disk`data, fs.disk`history, fs.disk`badReads, fs.disk`badWrites
      ensures fs.Valid() && OpenOnLog(fs.View(), fd) && OthersKept(old(fs.View()), fs.View())
      ensures Counts(old(fs.View()), fs.View())
      ensures ok ==> ImageWritten(old(fs.View()), fd, head, Kept(accepted), done, fs.View())
      ensures fs.disk.writable && NoFailure(old(fs.View()), fs.View()) ==> ok && done == count
    {
      hide Inv, Files, OthersKept, Usable, NameOf, WriteStep, HeaderBytes, RingHolds, Concat;
      ghost var kept := Kept(accepted);
      ghost var s0 := fs.View();
      done := 0;
      var hdr := HeaderBytes(count, head);
      var wr := fs.Write(fd, 0, hdr);
      ghost var u := fs.View();
      WriteLog(s0, fd, 0, hdr, wr, u);
      if wr < HEADER {
        if s0.writable {
          WriteFailsWithTransfer(s0, fd, 0, hdr, wr, u);
        }
        return false, 0;
      }
      var offset := HEADER;
      var start := if count < CAPACITY then 0 else head;
      var i := 0;
      ok := true;
      while i < count
        invariant 0 <= i == done <= count && offset == HEADER + i * RECORD
        invariant fs.Valid() && OpenOnLog(fs.View(), fd) && OthersKept(s0, fs.View()) && Counts(s0, fs.View())
        invariant fs.disk.writable
        invariant RecordsWritten(u, fd, kept, i, fs.View())
      {
        var idx := (start + i) % CAPACITY;
        OldestFirst(ring[..], accepted, i);
        ghost var s := fs.View();
        wr := fs.Write(fd, offset, ring[idx]);
        WriteLog(s, fd, offset, kept[i], wr, fs.View());
        OthersKeptOn(s0, s, fs.View());
        if wr < RECORD {
          WriteFailsWithTransfer(s, fd, offset, kept[i], wr, fs.View());
          assert ShortWrite(s, fd, kept, i, wr, fs.View());
          assert ImageTail(u, fd, kept, i, s, fs.View());
          return true, i;
        }
        assert LastWritten(u, fd, kept, i + 1, s, fs.View());
        offset := offset + RECORD;
        i, done := i + 1, done + 1;
      }
      assert ImageTail(u, fd, kept, count, fs.View(), fs.View());
    }

    /** Opens the file, writes it, closes it. */
    method Store() returns (rc: int, ghost done: nat)
      requires ring.Length == CAPACITY && RingHolds(ring[..], accepted)
      requires count == Min(|accepted|, CAPACITY) && head == |accepted| % CAPACITY
      requires FsReady()
      modifies fs.dir, fs.fds, fs.scratch, fs.disk`data, fs.disk`history, fs.disk`badReads, fs.disk`badWrites
      ensures FsReady() && OthersKept(old(fs.View()), fs.View()) && Counts(old(fs.View()), fs.View())
      ensures rc == 0 ==> StoreStep(old(fs.View()), head, Kept(accepted), done, fs.View())
      ensures NoFailure(old(fs.View()), fs.View()) && CanStore(old(fs.View())) ==> rc == 0 && done == count
    {
      hide Inv, Files, RingHolds, CreateGuard, Kept, Usable, NameOf, OthersKept, OpenedLog, ImageWritten, CloseStep;
      ghost var s0 := fs.View();
      CanStoreWritable(s0);
      var fd := OpenOrCreate();
      if fd < 0 {
        return -1, 0;
      }
      ghost var s1 := fs.View();
      var ok;
      ok, done := WriteImage(fd);
      ghost var s2 := fs.View();
      OthersKeptOn(s0, s1, s2);
      OpenHasFile(s2, fd);
      fs.Close(fd);
      CloseLog(s2, fd, fs.View());
      SameLog(s0, s2, fs.View(), []);
      LogThereIsSafe(fs.View());
      rc := if ok then 0 else -1;
    }

    /** `klog_flush`; `done` counts the records written in full. */
    method Flush() returns (rc: int, ghost done: nat)
      requires Valid() && FsReady()
      modifies this`flushing, fs.dir, fs.fds, fs.scratch, fs.disk`data, fs.disk`history, fs.disk`badReads, fs.disk`badWrites
      ensures Valid() && FsReady() && OthersKept(old(fs.View()), fs.View()) && Counts(old(fs.View()), fs.View())
      ensures !initialized || count == 0 ==> rc == 0 && fs.View() == old(fs.View())
      ensures initialized && count > 0 && rc == 0 ==> StoreStep(old(fs.View()), head, Kept(accepted), done, fs.View())
      ensures initialized && count > 0 && NoFailure(old(fs.View()), fs.View()) && CanStore(old(fs.View())) ==> rc == 0 && done == count
    {
      hide Inv, Files, RingHolds, CreateGuard, Kept, OthersKept, CanStore, StoreStep;
      OthersKeptSelf(fs.View());
      if !initialized || count == 0 {
        return 0, 0;
      }
      flushing := true;
      rc, done := Store();
      flushing := false;
    }

    /** `klog`, with the formatted record: stored in the ring, and flushed from 96 records on. */
    method Log(level: int, record: Record)
      requires Valid() && FsReady()
      modifies this, ring, fs.dir, fs.fds, fs.scratch, fs.disk`data, fs.disk`history, fs.disk`badReads, fs.disk`badWrites
      ensures Valid() && FsReady() && OthersKept(old(fs.View()), fs.View()) && Counts(old(fs.View()), fs.View())
      ensures initialized == old(initialized) && minLevel == old(minLevel)
      ensures accepted == old(accepted) + (if initialized && level >= minLevel then [record] else [])
      ensures !(initialized && level >= minLevel) || count < 96 ==> fs.View() == old(fs.View())
      ensures initialized && level >= minLevel && count >= 96
              && NoFailure(old(fs.View()), fs.View()) && CanStore(old(fs.View())) ==>
                Logged(fs.View(), head, Kept(accepted)) && ShownBy(fs.View()) == Kept(accepted)
    {
      hide Inv, Files, RingHolds, CreateGuard, Kept, OthersKept, CanStore, StoreStep, LogHolds, Shown;
      OthersKeptSelf(fs.View());
      if !initialized || level < minLevel {
        return;
      }
      Append(record);
      if count >= THRESHOLD && !flushing {
        ghost var s := fs.View();
        var rc;
        ghost var done;
        rc, done := Flush();
        if rc == 0 {
          StoreHolds(s, head, Kept(accepted), done, fs.View());
          if done == count {
            FullStoreIsLog(fs.View(), head, Kept(accepted));
          }
        }
      }
    }

    method Append(record: Record)
      requires Valid()
      modifies this`head, this`count, this`accepted, ring
      ensures Valid() && accepted == old(accepted) + [record]
    {
      RingAdvances(ring[..], accepted, record);
      ring[head] := record;
      accepted := accepted + [record];
      assert ring[..] == old(ring[..])[head := record];
      head := (head + 1) % CAPACITY;
      if count < CAPACITY {
        count := count + 1;
      }
    }
  }

  // ---- replay at boot ----

  /** A read of the log file, given the file. */
  lemma ReadLog(s: State, fd: int, f: File, offset: U64, n: nat, r: int, out: seq<Byte>, s': State)
    requires OpenOnLog(s, fd) && LOG_NAME in Files(s) && Files(s)[LOG_NAME] == f && 0 < n < TWO_TO_64 && ReadStep(s, fd, offset, n, r, out, s')
    ensures OpenOnLog(s', fd) && Files(s') == Files(s) && s.badReads <= s'.badReads
    ensures f.size <= |f.extent|
    ensures r >= n ==> offset + n <= f.size && r == n == |out| && out == f.extent[offset..offset + n]
    ensures r < n ==> offset + n > f.size || s'.badReads > s.badReads
  {
    hide Inv, Files;
    FileFits(s, LOG_NAME);
    ReadRefines(s, fd, offset, n, r, out, s');
    ReadKeeps(s, fd, offset, n, r, out, s');
  }

  /** `replay_from_disk`: the records it prints. */
  method Replay(fs: FileSystem) returns (shown: seq<Record>)
    requires fs.Valid() && Inv(fs.View())
    modifies fs.fds, fs.scratch, fs.disk`badReads
    ensures fs.Valid() && fs.disk.badReads >= old(fs.disk.badReads)
    ensures Inv(fs.View()) && Files(fs.View()) == Files(old(fs.View()))
    ensures !fs.initialized ==> shown == []
    ensures fs.initialized ==> shown <= ShownBy(old(fs.View()))
    ensures fs.initialized && fs.disk.badReads == old(fs.disk.badReads) ==> shown == ShownBy(old(fs.View()))
  {
    hide Inv, Files, Usable, NameOf, Shown;
    shown := [];
    ghost var s := fs.View();
    var fd := fs.Open(LOG_NAME);
    OpenLog(s, fd, fs.View());
    if fd < 0 {
      return;
    }
    ghost var s1 := fs.View();
    SizeOfLog(s1, fd);
    var size := fs.Size(fd);
    if size >= HEADER {
      shown := ReplayOpen(fs, fd);
    } else {
      NothingShown(Files(s)[LOG_NAME]);
    }
    ghost var t := fs.View();
    OnlyReads(s1, t);
    fs.Close(fd);
    CloseLog(t, fd, fs.View());
  }

  lemma OnlyReads(s: State, t: State)
    requires Inv(s) && t == s.(badReads := t.badReads)
    ensures Inv(t) && Files(t) == Files(s)
  {
  }

  lemma NothingShown(f: File)
    requires f.size < HEADER
    ensures Shown(f) == []
  {
  }

  /** Header, then records until the count or a short read. */
  method ReplayOpen(fs: FileSystem, fd: int) returns (shown: seq<Record>)
    requires fs.Valid() && OpenOnLog(fs.View(), fd) && LOG_NAME in Files(fs.View())
    requires Files(fs.View())[LOG_NAME].size >= HEADER
    modifies fs.scratch, fs.disk`badReads
    ensures fs.Valid() && fs.disk.badReads >= old(fs.disk.badReads)
    ensures shown <= Shown(Files(old(fs.View()))[LOG_NAME])
    ensures fs.disk.badReads == old(fs.disk.badReads) ==> shown == Shown(Files(old(fs.View()))[LOG_NAME])
  {
    hide Inv, Files, Usable, NameOf, FromLittleEndian, ReadStep, FirstRecords, Available;
    shown := [];
    ghost var s := fs.View();
    ghost var f := Files(s)[LOG_NAME];
    var hdr := new Byte[HEADER](_ => 0);
    var rd := fs.Read(fd, hdr, 0, HEADER);
    ghost var out := if rd > 0 then hdr[..rd] else [];
    ReadLog(s, fd, f, 0, HEADER, rd, out, fs.View());
    if rd < HEADER {
      return;
    }
    assert hdr[..4] == f.extent[..4] && hdr[4..8] == f.extent[4..8];
    if FromLittleEndian(hdr[..4]) != MAGIC {
      return;
    }
    var toRead := Min(FromLittleEndian(hdr[4..8]), CAPACITY);
    shown := ReplayRecords(fs, fd, toRead, f);
  }

  method ReplayRecords(fs: FileSystem, fd: int, toRead: nat, ghost f: File) returns (shown: seq<Record>)
    requires fs.Valid() && OpenOnLog(fs.View(), fd) && toRead <= CAPACITY
    requires LOG_NAME in Files(fs.View()) && Files(fs.View())[LOG_NAME] == f && HEADER <= f.size <= |f.extent|
    modifies fs.scratch, fs.disk`badReads
    ensures fs.Valid() && fs.disk.badReads >= old(fs.disk.badReads)
    ensures shown <= FirstRecords(f, toRead)
    ensures fs.disk.badReads == old(fs.disk.badReads) ==> shown == FirstRecords(f, toRead)
  {
    hide Inv, Files, Usable, NameOf, ReadStep;
    shown := [];
    var i := 0;
    while i < toRead
      invariant 0 <= i <= toRead && i <= Available(f)
      invariant fs.Valid() && OpenOnLog(fs.View(), fd) && LOG_NAME in Files(fs.View()) && Files(fs.View())[LOG_NAME] == f
      invariant fs.disk.badReads >= old(fs.disk.badReads)
      invariant shown == FirstRecords(f, toRead)[..i]
    {
      ghost var s := fs.View();
      var entry := new Byte[RECORD](_ => 0);
      var rd := fs.Read(fd, entry, HEADER + RECORD * i, RECORD);
      ghost var out := if rd > 0 then entry[..rd] else [];
      ReadLog(s, fd, f, HEADER + RECORD * i, RECORD, rd, out, fs.View());
      if rd < RECORD {
        return;
      }
      assert entry[..] == RecordAt(f, i);
      shown := shown + [entry[..]];
      i := i + 1;
    }
  }

  // ---- reboot ----

  lemma WriteKeepsSynced(s: State, fd: int, offset: U64, src: seq<Byte>, r: int, s': State)
    requires OpenOnLog(s, fd) && offset + |src| < TWO_TO_64 && WriteStep(s, fd, offset, src, r, s')
    ensures OpenOnLog(s', fd) && s.badWrites <= s'.badWrites
    ensures Synced(s) && s'.badWrites == s.badWrites ==> Synced(s')
  {
    hide Inv, Files, OthersKept, WriteStep, Synced, Usable, NameOf, Mountable;
    WriteLog(s, fd, offset, src, r, s');
    if Synced(s) && s'.badWrites == s.badWrites {
      StepKeepsSynced(s, WriteAt(fd, offset, src), r, s');
    }
  }

  lemma {:induction false} RecordsKeepSynced(s: State, fd: int, records: seq<Record>, i: nat, t: State)
    requires OpenOnLog(s, fd) && i <= |records| <= CAPACITY && RecordsWritten(s, fd, records, i, t)
    ensures OpenOnLog(t, fd) && s.badWrites <= t.badWrites
    ensures Synced(s) && t.badWrites == s.badWrites ==> Synced(t)
  {
    hide OpenOnLog, WriteStep, Synced;
    if i > 0 {
      var u :| LastWritten(s, fd, records, i, u, t);
      RecordsKeepSynced(s, fd, records, i - 1, u);
      WriteKeepsSynced(u, fd, HEADER + RECORD * (i - 1), records[i - 1], RECORD, t);
    }
  }

  lemma ImageKeepsSynced(s: State, fd: int, head: nat, records: seq<Record>, i: nat, t: State)
    requires OpenOnLog(s, fd) && |records| <= CAPACITY && ImageWritten(s, fd, head, records, i, t)
    ensures OpenOnLog(t, fd) && s.badWrites <= t.badWrites
    ensures Synced(s) && t.badWrites == s.badWrites ==> Synced(t)
  {
    hide OpenOnLog, WriteStep, HeaderBytes, RecordsWritten, Synced;
    var hdr := HeaderBytes(|records|, head);
    var u, v :| WriteStep(s, fd, 0, hdr, HEADER, u) && ImageTail(u, fd, records, i, v, t);
    WriteKeepsSynced(s, fd, 0, hdr, HEADER, u);
    RecordsKeepSynced(u, fd, records, i, v);
    if i < |records| {
      var r :| ShortWrite(v, fd, records, i, r, t);
      WriteKeepsSynced(v, fd, HEADER + RECORD * i, records[i], r, t);
    }
  }

  lemma OpenedKeepsSynced(s: State, fd: int, t: State)
    requires Inv(s) && CreateGuard(s, LOG_NAME, 1) && OpenedLog(s, fd, t)
    ensures s.badWrites <= t.badWrites
    ensures Synced(s) && t.badWrites == s.badWrites ==> Synced(t)
  {
    hide Inv, OpenStep, CreateStep, CreateGuard, Files, Synced;
    if OpenStep(s, LOG_NAME, fd, t) {
      OpenLog(s, fd, t);
      if Synced(s) {
        StepKeepsSynced(s, Open(LOG_NAME), fd, t);
      }
    } else {
      var u, v :| OpenStep(s, LOG_NAME, -1, u) && CreateStep(u, LOG_NAME, 1, 0, v) && OpenStep(v, LOG_NAME, fd, t);
      OpenLog(s, -1, u);
      CreateLog(u, 0, v);
      OpenLog(v, fd, t);
      if Synced(s) && t.badWrites == s.badWrites {
        StepKeepsSynced(u, Create(LOG_NAME, 1), 0, v);
        StepKeepsSynced(v, Open(LOG_NAME), fd, t);
      }
    }
  }

  /** A flush without a failed write leaves the directory on the device, if it was there before. */
  lemma StoreKeepsSynced(s: State, head: nat, records: seq<Record>, done: nat, s': State)
    requires Inv(s) && CreateGuard(s, LOG_NAME, 1) && |records| <= CAPACITY && StoreStep(s, head, records, done, s')
    requires Synced(s) && s'.badWrites == s.badWrites
    ensures Synced(s')
  {
    hide Inv, OpenOnLog, CreateGuard, Files, OpenedLog, ImageWritten, LogHolds;
    var fd, t, u :| OpenedLog(s, fd, t) && ImageWritten(t, fd, head, records, done, u) && CloseStep(u, fd, s');
    OpenedLogIsOpen(s, fd, t);
    OpenedKeepsSynced(s, fd, t);
    ImageKeepsSynced(t, fd, head, records, done, u);
  }

  /** A log survives a remount: what is replayed after it is what was flushed. */
  lemma RemountKeepsLog(s: State, r: int, s': State)
    requires Inv(s) && Synced(s) && MountStep(s, r, s') && s'.badReads == s.badReads
    ensures r == 0 && Inv(s') && s'.initialized && ShownBy(s') == ShownBy(s) && NoFailure(s, s')
  {
    OnDeviceIsMountable(s);
    MountSucceeds(s, r, s');
    MountKeeps(s, r, s');
    SameFiles(s, s');
  }

  /**
   * A flush that wrote every record without a failed write, on a volume whose directory is
   * on the device, and a mount without a failed read: the mount succeeds and a replay shows
   * exactly those records.
   */
  lemma FlushedLogIsShown(s: State, head: nat, records: seq<Record>, t: State, r: int, s': State)
    requires Inv(s) && CreateGuard(s, LOG_NAME, 1) && Synced(s) && |records| <= CAPACITY
    requires StoreStep(s, head, records, |records|, t) && t.badWrites == s.badWrites
    requires MountStep(t, r, s') && s'.badReads == t.badReads
    ensures r == 0 && Inv(s') && s'.initialized && ShownBy(s') == records
  {
    hide Inv, Files, CreateGuard, Synced, StoreStep, MountStep, LogHolds, ShownBy, HeaderBytes, Concat;
    StoreHolds(s, head, records, |records|, t);
    HeldIsGood(t, HeaderBytes(|records|, head) + Concat(records[..|records|]));
    StoreKeepsSynced(s, head, records, |records|, t);
    FullStoreIsLog(t, head, records);
    RemountKeepsLog(t, r, s');
  }

  lemma HeldIsGood(s: State, image: seq<Byte>)
    requires LogHolds(s, image)
    ensures Inv(s)
  {
  }

  /**
   * Flush, reboot, mount and replay, on a volume whose directory is on the device.  If it
   * could hold the log and no transfer failed meanwhile, the mount succeeds and the replay
   * shows exactly the last 128 accepted records, oldest first.
   */
  method FlushAndReboot(log: KLog) returns (mounted: bool, shown: seq<Record>)
    requires log.Valid() && log.FsReady() && Synced(log.fs.View()) && log.initialized && log.count > 0
    modifies log`flushing, log.fs, log.fs.dir, log.fs.fds, log.fs.scratch, log.fs.disk
    ensures log.fs.Valid() && Counts(old(log.fs.View()), log.fs.View())
    ensures NoFailure(old(log.fs.View()), log.fs.View()) && CanStore(old(log.fs.View())) ==>
              mounted && LastOf(shown, log.accepted)
  {
    hide Inv, Files, LogHolds, Kept, CreateGuard, OthersKept, LastOf;
    hide RingHolds, CanStore, MountStep, StoreStep, Synced, Shown, ShownBy;
    shown := [];
    KeptIsLast(log.accepted);
    var fs := log.fs;
    ghost var s0 := fs.View();
    var failures := fs.disk.badWrites;
    var rc;
    ghost var done;
    rc, done := log.Flush();
    ghost var s1 := fs.View();
    var r := fs.Mount();
    mounted := r == 0;
    MountCounts(s1, r, fs.View());
    InvHasRoom(s1);
    MountSucceeds(s1, r, fs.View());
    if mounted && rc == 0 && fs.disk.badWrites == failures {
      StoreKeepsSynced(s0, log.head, Kept(log.accepted), done, s1);
      RemountKeepsLog(s1, r, fs.View());
      if done == log.count {
        FlushedLogIsShown(s0, log.head, Kept(log.accepted), s1, r, fs.View());
      }
      shown := Replay(fs);
    }
  }

  lemma MountCounts(s: State, r: int, s': State)
    requires MountStep(s, r, s')
    ensures s'.badWrites == s.badWrites && s'.badReads >= s.badReads && (r == 0 ==> s'.initialized)
  {
  }
}
