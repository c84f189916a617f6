/** Concrete volumes on which the filesystem does what its callers do not expect. */
module VolumeInstances {
  import opened Bytes
  import opened SectorDisk
  import opened Directory
  import opened Allocator
  import opened Volume
  import opened VolumeSafety
  import opened VolumeSteps
  import opened VolumeDurability

  /** A directory without any entry, as on a formatted device. */
  ghost predicate Blank(dir: Dir) { forall i | 0 <= i < SLOTS :: EndAt(dir, i) }

  function BlankDir(): (d: Dir)
    ensures Blank(d)
  {
    seq(SLOTS, _ => Entry(seq(NAME_LEN, _ => 0), 0, 0, 0, 0))
  }

  function Closed(): (fds: Fds)
    ensures forall f | 0 <= f < SLOTS :: !fds[f].inUse
  {
    seq(SLOTS, _ => Fd(false, 0, 0, 0, 0, []))
  }

  /** The tag, and zeros elsewhere. */
  function BlankData(len: nat): (data: seq<Byte>)
    requires len >= DIR_OFFSET + DIR_LEN
    ensures |data| == len && HasTag(data)
    ensures forall i | DIR_OFFSET <= i < len :: data[i] == 0
  {
    var data := seq(len, i => if TAG_OFFSET <= i < TAG_OFFSET + 4 then TAG[i - TAG_OFFSET] else 0);
    assert data[TAG_OFFSET..TAG_OFFSET + 4] == TAG;
    data
  }

  /** A mounted volume with directory `dir`, on a device that has it. */
  function Mounted(len: nat, dir: Dir): (s: State)
    requires DIR_OFFSET + DIR_LEN <= len < TWO_TO_64
    ensures s.initialized && s.writable && s.dir == dir && |s.data| == len && HasRoom(s.data)
  {
    State(true, dir, Closed(), Splice(BlankData(len), DIR_OFFSET, EncodeDir(dir)), true, 0, 0)
  }

  lemma MountedIsGood(len: nat, dir: Dir)
    requires DIR_OFFSET + DIR_LEN <= len < TWO_TO_64 && WellFormed(dir, len)
    ensures Inv(Mounted(len, dir)) && OnDevice(Mounted(len, dir))
  {
    hide WellFormed, EncodeDir;
    var s := Mounted(len, dir);
    assert s.data[TAG_OFFSET..TAG_OFFSET + 4] == BlankData(len)[TAG_OFFSET..TAG_OFFSET + 4];
    assert DirBytes(s.data) == EncodeDir(dir);
  }

  lemma BlankDirFacts(dir: Dir, len: int)
    requires Blank(dir)
    ensures WellFormed(dir, len) && FreeSlot(dir, 0) && EndFollows(dir, 0) && Normalised(dir)
    ensures forall i :: !Live(dir, i)
  {
    assert EndAt(dir, 0) && EndAt(dir, 1);
    forall i ensures !Live(dir, i) {
      if 0 <= i < SLOTS {
        assert EndAt(dir, i);
      }
    }
  }

  /** The state after a create in `slot` whose flush failed without moving a sector. */
  ghost function Unflushed(s: State, slot: int, e: Entry): State
    requires 0 <= slot < SLOTS
  {
    s.(dir := CreatedDir(s.dir, slot, e), badWrites := s.badWrites + 1)
  }

  lemma NothingMoved(data: seq<Byte>, src: seq<Byte>)
    ensures Torn(data, DIR_OFFSET, src, data)
  {
  }

  lemma UnflushedIsCreate(s: State, name: CString, blocks: U64, slot: int, start: U64)
    requires !CreateRefused(s, name) && 0 <= slot && FreeSlot(s.dir, slot)
    requires start >= 1 && Allocates(s.dir, Max(blocks, 1), start)
    ensures CreateStep(s, name, blocks, -1, Unflushed(s, slot, NewEntry(name, start, Max(blocks, 1))))
  {
    hide Allocates, SaneExtents, EncodeDir, Torn, CreatedDir, NewEntry, Finds;
    var n := Max(blocks, 1);
    var t := Unflushed(s, slot, NewEntry(name, start, n));
    NothingMoved(s.data, EncodeDir(t.dir));
    assert CreatesIn(s, name, n, slot, start, -1, t);
  }

  /** A mount reads back the directory on the device. */
  lemma MountReads(t: State, dir: Dir)
    requires HasTag(t.data) && DirBytes(t.data) == EncodeDir(dir)
    ensures MountStep(t, 0, t.(initialized := true, dir := dir, fds := CloseAll(t.fds)))
  {
    hide EncodeDir, DecodeDir, CloseAll;
    DecodeEncodeDir(dir);
  }

  /** On an empty directory every run begins at block 1. */
  lemma FirstRun(dir: Dir, n: U64)
    requires Blank(dir) && n >= 1
    ensures Allocates(dir, n, 1) && SaneExtents(dir)
  {
    BlankDirFacts(dir, 0);
    hide Live;
  }

  lemma BlankTakesAny(len: nat, dir: Dir, name: CString)
    requires Blank(dir) && DIR_OFFSET + DIR_LEN <= len < TWO_TO_64 && GoodName(name)
    ensures var s := Mounted(len, dir);
            Inv(s) && OnDevice(s) && !CreateRefused(s, name) && FreeSlot(s.dir, 0) && Finds(s.dir, name, -1)
  {
    hide WellFormed, Live, EncodeDir, Mounted, Text, Inv, OnDevice;
    BlankDirFacts(dir, len);
    MountedIsGood(len, dir);
  }

  /**
   * On any formatted device, any create whose flush fails without reaching it reports
   * the failure, shows the file, and loses it with the next mount.
   */
  lemma UnflushedCreateIsLost(len: nat, dir: Dir, name: CString, blocks: U64)
    requires Blank(dir) && DIR_OFFSET + DIR_LEN <= len < TWO_TO_64 && GoodName(name)
    ensures var s := Mounted(len, dir);
            var t := Unflushed(s, 0, NewEntry(name, 1, Max(blocks, 1)));
            var u := t.(dir := s.dir, fds := CloseAll(t.fds));
            && Inv(s) && OnDevice(s) && CreateStep(s, name, blocks, -1, t) && Finds(t.dir, name, 0)
            && MountStep(t, 0, u) && Finds(u.dir, name, -1)
  {
    hide Allocates, Live, EncodeDir, SaneExtents, CloseAll, CreateStep, Finds, CreatedDir, WellFormed, MountStep;
    var s := Mounted(len, dir);
    BlankTakesAny(len, dir, name);
    BlankDirFacts(dir, len);
    FirstRun(dir, Max(blocks, 1));
    UnflushedIsCreate(s, name, blocks, 0, 1);
    CreateIsFound(s.dir, 0, name, 1, Max(blocks, 1));
    MountReads(Unflushed(s, 0, NewEntry(name, 1, Max(blocks, 1))), s.dir);
  }

  // ---- a full directory ----

  /** All slots in use but the deleted first one: 63 files of one block each. */
  ghost predicate Full(dir: Dir) {
    && dir[0].name[0] == DELETED
    && forall i | 1 <= i < SLOTS :: dir[i] == Entry(Padded([0x41, i]), i, 1, 0, 0)
  }

  function FullDir(): (d: Dir)
    ensures Full(d)
  {
    seq(SLOTS, i requires 0 <= i < SLOTS =>
      if i == 0 then Entry(Padded([DELETED]), 0, 0, 0, 0) else Entry(Padded([0x41, i]), i, 1, 0, 0))
  }

  lemma FullFacts(dir: Dir, len: int)
    requires Full(dir)
    ensures WellFormed(dir, len) && Normalised(dir) && FreeSlot(dir, 0) && !EndFollows(dir, 0)
    ensures forall i :: Live(dir, i) <==> 1 <= i < SLOTS
    ensures forall i | 1 <= i < SLOTS :: Text(dir[i].name) == [0x41, i] && dir[i].start == i && dir[i].reserved == 1
  {
    hide Padded, Text;
    forall i | 1 <= i < SLOTS ensures Text(dir[i].name) == [0x41, i] && dir[i].name[0] == 0x41 {
      TextOfPadded([0x41, i]);
      FirstOfPadded([0x41, i]);
    }
    assert forall i | 0 <= i < SLOTS :: !EndAt(dir, i);
    forall i, j | 1 <= i < SLOTS && 1 <= j < SLOTS && i != j ensures Apart(dir, i, j) {
      assert Text(dir[i].name)[1] == i && Text(dir[j].name)[1] == j;
    }
  }

  lemma FullRun(dir: Dir)
    requires Full(dir)
    ensures Allocates(dir, 1, SLOTS) && Finds(dir, [0x42], -1)
  {
    FullFacts(dir, 0);
    hide Full, Live, Text, WellFormed, Normalised;
    assert Clip([0x42]) == [0x42];
    forall j | 0 <= j < SLOTS ensures !Named(dir, j, [0x42]) {
      if j >= 1 {
        assert Text(dir[j].name)[0] == 0x41;
      }
    }
    forall c | 1 <= c < SLOTS ensures !Fits(dir, c, 1) {
      assert Live(dir, c) && Touches(dir, c, c, 1);
    }
  }

  /** On a good volume with such a directory, a create that reports success hides all 63 files. */
  lemma CreateHidesFiles(len: nat, dir: Dir)
    requires DIR_OFFSET + DIR_LEN <= len < TWO_TO_64 && Full(dir)
    ensures var s := Mounted(len, dir);
            var t := Created(s, 0, NewEntry([0x42], SLOTS, 1));
            && Inv(s) && OnDevice(s) && CreateStep(s, [0x42], 1, 0, t)
            && forall j | 1 <= j < SLOTS :: Live(s.dir, j) && !Live(t.dir, j)
  {
    hide Full, Live, Text, WellFormed, Normalised, EncodeDir, Allocates, CreateStep, CreatedDir, EndFollows;
    var s := Mounted(len, dir);
    FullFacts(dir, len);
    FullRun(dir);
    MountedIsGood(len, dir);
    CreatedIsCreate(s, [0x42], 1, 0, SLOTS);
    FirstOfPadded([0x42]);
    CreateKeepsOthersIff(dir, 0, NewEntry([0x42], SLOTS, 1));
  }

  // ---- a write that wraps around ----

  /** One file of one block, at block 1. */
  ghost predicate OneFile(dir: Dir) {
    dir[0] == Entry(Padded([97]), 1, 1, 0, 0) && forall i | 1 <= i < SLOTS :: EndAt(dir, i)
  }

  function OneFileDir(): (d: Dir)
    ensures OneFile(d)
  {
    BlankDir()[0 := Entry(Padded([97]), 1, 1, 0, 0)]
  }

  lemma OneFileFacts(dir: Dir, len: int)
    requires OneFile(dir)
    ensures WellFormed(dir, len) && Finds(dir, [97], 0)
  {
    TextOfPadded([97]);
    FirstOfPadded([97]);
    hide Padded, Text;
    forall i ensures Live(dir, i) <==> i == 0 {
      if 1 <= i < SLOTS {
        assert EndAt(dir, i);
      }
    }
    assert Clip([97]) == [97];
  }

  /** The mounted volume with that file open. */
  ghost function OneOpen(len: nat, dir: Dir): (s: State)
    requires BLOCK <= len < TWO_TO_64
    ensures s.initialized && s.writable && |s.data| == len
  {
    var s := Mounted(len, dir);
    s.(fds := s.fds[0 := OpenFd(dir, 0)])
  }

  const WRAPPED: U64 := TWO_TO_64 - BLOCK + DIR_OFFSET

  /**
   * On a good volume, a write through an open descriptor whose end wraps around 2^64 is
   * accepted, reports success, and replaces the directory on the device by the caller's bytes.
   */
  lemma WrappedWriteHitsDirectory(len: nat, dir: Dir, src: seq<Byte>)
    requires BLOCK <= len < TWO_TO_64 && OneFile(dir) && |src| == BLOCK - DIR_OFFSET
    ensures var s := OneOpen(len, dir);
            var t := s.(data := Splice(s.data, DIR_OFFSET, src));
            && Inv(s) && OnDevice(s) && OpenStep(Mounted(len, dir), [97], 0, s)
            && WriteStep(s, 0, WRAPPED, src, |src|, t) && DirBytes(t.data) == src[..DIR_LEN]
  {
    hide Live, Text, WellFormed, EncodeDir, OneFile, OpenStep, Padded, Finds;
    var s0, s := Mounted(len, dir), OneOpen(len, dir);
    OneFileFacts(dir, len);
    OneFileEntry(dir);
    MountedIsGood(len, dir);
    OpensFirst(s0, [97], 0);
    OpenKeeps(s0, [97], 0, s);
    WrappedLands(s, src);
  }

  lemma OneFileEntry(dir: Dir)
    requires OneFile(dir)
    ensures dir[0].start == 1 && dir[0].reserved == 1 && dir[0].size == 0
  {
  }

  lemma WrappedLands(s: State, src: seq<Byte>)
    requires Usable(s, 0) && s.writable && s.fds[0].start == 1 && s.fds[0].reserved == 1
    requires BLOCK <= |s.data| && |src| == BLOCK - DIR_OFFSET
    ensures WriteStep(s, 0, WRAPPED, src, |src|, s.(data := Splice(s.data, DIR_OFFSET, src)))
    ensures DirBytes(Splice(s.data, DIR_OFFSET, src)) == src[..DIR_LEN]
  {
    hide TornWrite, Flushed;
    assert Address(s.fds[0], WRAPPED) == DIR_OFFSET && (WRAPPED + |src|) % TWO_TO_64 == 0;
    assert FullWrite(s, 0, DIR_OFFSET, src, 0, s.(data := Splice(s.data, DIR_OFFSET, src)));
  }

  // ---- a run that cannot be addressed ----

  const HUGE: U64 := MAX_BLOCK

  /** The directory after creating "a" with 2^43 blocks, and then "b" with one. */
  ghost function HugeDir(dir: Dir): Dir { dir[0 := NewEntry([97], 1, HUGE)] }

  ghost function HugeDir2(dir: Dir): Dir { HugeDir(dir)[1 := NewEntry([98], HUGE + 1, 1)] }

  lemma HugeFacts(dir: Dir, len: int)
    requires Blank(dir)
    ensures FreeSlot(HugeDir(dir), 1) && Finds(HugeDir(dir), [98], -1) && EndFollows(HugeDir(dir), 1)
    ensures CreatedDir(dir, 0, NewEntry([97], 1, HUGE)) == HugeDir(dir)
    ensures CreatedDir(HugeDir(dir), 1, NewEntry([98], HUGE + 1, 1)) == HugeDir2(dir)
    ensures Allocates(HugeDir(dir), 1, HUGE + 1)
    ensures !WellFormed(HugeDir(dir), len)
  {
    BlankDirFacts(dir, 0);
    var d := HugeDir(dir);
    TextOfPadded([97]);
    forall i | 1 <= i < SLOTS ensures EndAt(d, i) {
      assert EndAt(dir, i) && d[i] == dir[i];
    }
    assert !EndAt(d, 0) && EndAt(d, 1) && EndAt(d, 2);
    forall i ensures Live(d, i) <==> i == 0 {
      if 1 <= i < SLOTS {
        assert EndAt(d, i);
      }
    }
    assert !ExtentOk(d, 0, len);
    assert Touches(d, 0, 1, 1);
    forall c | 1 <= c < HUGE + 1 ensures !Fits(d, c, 1) {
      assert Live(d, 0) && Touches(d, 0, c, 1);
    }
  }

  /** A create with a successful flush. */
  ghost function Created(s: State, slot: int, e: Entry): State
    requires 0 <= slot < SLOTS && HasRoom(s.data)
  {
    var d := CreatedDir(s.dir, slot, e);
    s.(dir := d, data := Splice(s.data, DIR_OFFSET, EncodeDir(d)))
  }

  lemma CreatedIsCreate(s: State, name: CString, blocks: U64, slot: int, start: U64)
    requires !CreateRefused(s, name) && 0 <= slot && FreeSlot(s.dir, slot) && HasRoom(s.data)
    requires start >= 1 && Allocates(s.dir, Max(blocks, 1), start)
    ensures CreateStep(s, name, blocks, 0, Created(s, slot, NewEntry(name, start, Max(blocks, 1))))
  {
    hide Allocates, SaneExtents, EncodeDir, CreatedDir, NewEntry, Finds;
    var n := Max(blocks, 1);
    var t := Created(s, slot, NewEntry(name, start, n));
    assert CreatesIn(s, name, n, slot, start, 0, t);
  }

  ghost function HugeOne(len: nat, dir: Dir): (t: State)
    requires DIR_OFFSET + DIR_LEN <= len < TWO_TO_64
    ensures HasRoom(t.data)
  {
    Created(Mounted(len, dir), 0, NewEntry([97], 1, HUGE))
  }

  ghost function HugeTwo(len: nat, dir: Dir): State
    requires DIR_OFFSET + DIR_LEN <= len < TWO_TO_64
  {
    Created(HugeOne(len, dir), 1, NewEntry([98], HUGE + 1, 1))
  }

  /**
   * A formatted device grants 2^43 blocks, and the next file after that has the
   * address of the first one: its blocks are counted modulo 2^64 bytes.
   */
  lemma HugeCreateAliases(len: nat, dir: Dir)
    requires Blank(dir) && DIR_OFFSET + DIR_LEN <= len < TWO_TO_64
    ensures Inv(Mounted(len, dir))
    ensures CreateStep(Mounted(len, dir), [97], HUGE, 0, HugeOne(len, dir)) && !WellFormed(HugeOne(len, dir).dir, len)
    ensures CreateStep(HugeOne(len, dir), [98], 1, 0, HugeTwo(len, dir))
    ensures Address(OpenFd(HugeTwo(len, dir).dir, 0), 0) == BLOCK == Address(OpenFd(HugeTwo(len, dir).dir, 1), 0)
  {
    hide Allocates, Live, EncodeDir, SaneExtents, CloseAll, CreateStep, Finds, CreatedDir, WellFormed;
    var s := Mounted(len, dir);
    BlankTakesAny(len, dir, [97]);
    FirstRun(dir, HUGE);
    CreatedIsCreate(s, [97], HUGE, 0, 1);
    HugeFacts(dir, len);
    CreatedIsCreate(HugeOne(len, dir), [98], 1, 1, HUGE + 1);
  }

  // ---- a device without a data block ----

  ghost function Small(dir: Dir): (t: State)
    ensures t.initialized && |t.data| == 8192 && t.fds == Closed()
  {
    Created(Mounted(8192, dir), 0, NewEntry([97], 1, 1))
  }

  ghost function SmallOpen(dir: Dir): State { Small(dir).(fds := Closed()[0 := OpenFd(Small(dir).dir, 0)]) }

  /** A formatted device that ends with its directory grants a block it does not have: no write to the file succeeds. */
  lemma NoBlockToWrite(dir: Dir, offset: U64, src: seq<Byte>, s': State)
    requires Blank(dir) && src != [] && offset + |src| < TWO_TO_64
    ensures Inv(Mounted(8192, dir)) && CreateStep(Mounted(8192, dir), [97], 1, 0, Small(dir))
    ensures OpenStep(Small(dir), [97], 0, SmallOpen(dir)) && !WriteStep(SmallOpen(dir), 0, offset, src, |src|, s')
  {
    hide Live, EncodeDir, SaneExtents, CloseAll, CreateStep, Finds, WellFormed, Allocates, OpenStep, WriteStep;
    var s := Mounted(8192, dir);
    BlankTakesAny(8192, dir, [97]);
    BlankDirFacts(dir, 8192);
    FirstRun(dir, 1);
    CreatedIsCreate(s, [97], 1, 0, 1);
    CreateIsFound(s.dir, 0, [97], 1, 1);
    OpensFirst(Small(dir), [97], 0);
    PastTheEnd(SmallOpen(dir), offset, src, s');
  }

  lemma OpensFirst(t: State, name: CString, idx: int)
    requires t.initialized && 0 <= idx && Finds(t.dir, name, idx) && forall f | 0 <= f < SLOTS :: !t.fds[f].inUse
    ensures OpenStep(t, name, 0, t.(fds := t.fds[0 := OpenFd(t.dir, idx)]))
  {
    hide Live;
    assert Named(t.dir, idx, name);
    assert OpensAt(t, idx, 0, t.(fds := t.fds[0 := OpenFd(t.dir, idx)]));
  }

  lemma PastTheEnd(u: State, offset: U64, src: seq<Byte>, s': State)
    requires Usable(u, 0) && u.fds[0].start == 1 && u.fds[0].reserved == 1 && |u.data| <= BLOCK
    requires src != [] && offset + |src| < TWO_TO_64
    ensures !WriteStep(u, 0, offset, src, |src|, s')
  {
    hide TornWrite;
    if Accepts(u.fds[0], offset, |src|) {
      assert Address(u.fds[0], offset) + |src| > |u.data|;
    }
  }

  // ---- two failed flushes ----

  /** Slot 0 deleted, files in slots 1 to 8, of one block each; the last of them has block 1. */
  ghost predicate Eight(dir: Dir) {
    && dir[0].name[0] == DELETED
    && (forall i | 1 <= i <= 8 :: dir[i] == Entry(Padded([0x41, i]), if i == 8 then 1 else i + 1, 1, 0, 0))
    && (forall i | 9 <= i < SLOTS :: EndAt(dir, i))
  }

  function EightDir(): (d: Dir)
    ensures Eight(d)
  {
    seq(SLOTS, i requires 0 <= i < SLOTS =>
      if i == 0 then Entry(Padded([DELETED]), 0, 0, 0, 0)
      else if i <= 8 then Entry(Padded([0x41, i]), if i == 8 then 1 else i + 1, 1, 0, 0)
      else Entry(Padded([]), 0, 0, 0, 0))
  }

  lemma EightFacts(dir: Dir, len: int)
    requires Eight(dir)
    ensures forall i :: Live(dir, i) <==> 1 <= i <= 8
    ensures WellFormed(dir, len) && Finds(dir, [0x41, 8], 8)
  {
    hide Padded, Text;
    forall i | 1 <= i <= 8 ensures Text(dir[i].name) == [0x41, i] && dir[i].name[0] == 0x41 {
      TextOfPadded([0x41, i]);
      FirstOfPadded([0x41, i]);
    }
    assert EndAt(dir, 9);
    forall i, j | 1 <= i <= 8 && 1 <= j <= 8 && i != j ensures Apart(dir, i, j) {
      assert Text(dir[i].name)[1] == i && Text(dir[j].name)[1] == j;
    }
    assert forall i | 0 <= i <= 8 :: !EndAt(dir, i);
    forall j | 0 <= j < 8 ensures !Named(dir, j, [0x41, 8]) {
      if j >= 1 {
        assert Text(dir[j].name)[1] == j;
      }
    }
    assert Clip([0x41, 8]) == [0x41, 8];
  }

  lemma FirstOfPadded(name: CString)
    requires 1 <= |name| <= NAME_LEN
    ensures Padded(name)[0] == name[0]
  {
  }

  /** The cached directory after deleting slot 8 and creating "C" with one block. */
  ghost function Replaced(dir: Dir): Dir {
    DeletedDir(dir, 8)[0 := NewEntry([0x43], 1, 1)]
  }

  lemma DeletedFacts(dir: Dir)
    requires Eight(dir)
    ensures var d := DeletedDir(dir, 8);
            && FreeSlot(d, 0) && EndFollows(d, 0) && Finds(d, [0x43], -1) && LowestFit(d, 1, 1)
            && CreatedDir(d, 0, NewEntry([0x43], 1, 1)) == Replaced(dir)
  {
    hide Padded, Text;
    var d := DeletedDir(dir, 8);
    EightFacts(dir, 0);
    DeletedLive(dir, 8);
    assert EndAt(dir, 9) && EndAt(d, 9);
    assert Clip([0x43]) == [0x43];
    forall j | 0 <= j < SLOTS ensures !Named(d, j, [0x43]) {
      if 1 <= j <= 7 {
        TextOfPadded([0x41, j]);
      }
    }
    forall j | Live(d, j) ensures 1 <= j <= 7 && d[j].start >= 2 {
      assert Live(dir, j) && j != 8;
      assert d[j] == dir[j];
    }
  }

  /** Of that directory only the first sector reaches the device: the old slot 8 stays. */
  lemma FirstSectorOnly(before: seq<Byte>, dir: Dir, after: seq<Byte>)
    requires HasRoom(before) && DirBytes(before) == EncodeDir(dir)
    requires after == Splice(before, DIR_OFFSET, EncodeDir(Replaced(dir))[..SECTOR])
    ensures Torn(before, DIR_OFFSET, EncodeDir(Replaced(dir)), after)
    ensures DirBytes(after) == EncodeDir(dir[0 := NewEntry([0x43], 1, 1)])
  {
    hide EncodeDir, NewEntry;
    var new', mixed := EncodeDir(Replaced(dir)), EncodeDir(dir[0 := NewEntry([0x43], 1, 1)]);
    forall q | 0 <= q < |new'| / SECTOR
      ensures SectorKept(before, DIR_OFFSET + q * SECTOR, after) || SectorMoved(DIR_OFFSET, new', DIR_OFFSET + q * SECTOR, after)
    {
      if q == 0 {
        assert SectorMoved(DIR_OFFSET, new', DIR_OFFSET, after);
      }
    }
    forall k | 0 <= k < DIR_LEN ensures DirBytes(after)[k] == mixed[k] {
      EncodedByte(dir, k / ENTRY_LEN, k % ENTRY_LEN);
      EncodedByte(Replaced(dir), k / ENTRY_LEN, k % ENTRY_LEN);
      EncodedByte(dir[0 := NewEntry([0x43], 1, 1)], k / ENTRY_LEN, k % ENTRY_LEN);
      assert DirBytes(before)[k] == before[DIR_OFFSET + k];
    }
  }

  lemma TwoFilesOneBlock(dir: Dir, len: int)
    requires Eight(dir)
    ensures !WellFormed(dir[0 := NewEntry([0x43], 1, 1)], len)
  {
    hide Text;
    var d := dir[0 := NewEntry([0x43], 1, 1)];
    FirstOfPadded([0x43]);
    forall i | 0 <= i <= 8 ensures !EndAt(d, i) {
      if i >= 1 {
        FirstOfPadded([0x41, i]);
      }
    }
    FirstOfPadded([0x41, 8]);
    assert Live(d, 0) && Live(d, 8) && !Apart(d, 0, 8);
  }

  ghost function DeleteFailed(s: State): State {
    s.(dir := DeletedDir(s.dir, 8), fds := CloseOn(s.fds, 8), badWrites := s.badWrites + 1)
  }

  ghost function CreateTorn(s: State, dir: Dir): State
    requires HasRoom(s.data)
  {
    s.(dir := Replaced(dir), data := Splice(s.data, DIR_OFFSET, EncodeDir(Replaced(dir))[..SECTOR]), badWrites := s.badWrites + 1)
  }

  lemma MixedIsCreate(s: State, dir: Dir)
    requires Eight(dir) && HasRoom(s.data) && DirBytes(s.data) == EncodeDir(dir)
    requires s.initialized && s.writable && s.dir == DeletedDir(dir, 8)
    ensures CreateStep(s, [0x43], 1, -1, CreateTorn(s, dir)) && CreateGuard(s, [0x43], 1)
  {
    hide EncodeDir, Live, Finds, Padded, Fits, Torn, DirBytes, Replaced, Eight, SaneExtents;
    DeletedFacts(dir);
    FirstSectorOnly(s.data, dir, CreateTorn(s, dir).data);
    assert !CreateRefused(s, [0x43]);
    assert CreatesIn(s, [0x43], Max(1, 1), 0, 1, -1, CreateTorn(s, dir));
  }

  /**
   * A delete and a create that takes its block, both with failed flushes, can leave two
   * files with the same block on the device, so that it must not be mounted again.
   */
  lemma TwoFailedFlushesOverlap(len: nat, dir: Dir)
    requires DIR_OFFSET + DIR_LEN <= len < TWO_TO_64 && Eight(dir)
    ensures var s := Mounted(len, dir);
            && Inv(s) && OnDevice(s)
            && DeleteStep(s, [0x41, 8], -1, DeleteFailed(s))
            && CreateGuard(DeleteFailed(s), [0x43], 1)
            && CreateStep(DeleteFailed(s), [0x43], 1, -1, CreateTorn(DeleteFailed(s), dir))
            && !Mountable(CreateTorn(DeleteFailed(s), dir).data)
  {
    hide EncodeDir, DecodeDir, Live, Padded, Fits, Torn;
    hide WellFormed, Replaced, Eight, SaneExtents, CreateStep, CreateGuard, CloseOn;
    var s := Mounted(len, dir);
    EightFacts(dir, len);
    MountedIsGood(len, dir);
    NothingMoved(s.data, EncodeDir(DeletedDir(dir, 8)));
    assert DeletesAt(s, 8, -1, DeleteFailed(s));
    MixedIsCreate(DeleteFailed(s), dir);
    FirstSectorOnly(s.data, dir, CreateTorn(DeleteFailed(s), dir).data);
    DecodeEncodeDir(dir[0 := NewEntry([0x43], 1, 1)]);
    TwoFilesOneBlock(dir, len);
  }
}
