/** What a caller sees of each filesystem call: when it is refused, what it returns, and which descriptors are open after it. */
module VolumeCalls {
  import opened Bytes
  import opened Directory
  import opened Allocator
  import opened Volume
  import opened VolumeSafety
  import opened VolumeSteps
  import opened VolumeRuns
  import opened Tables
  import opened FlatFiles
  import opened FlatSteps
  import opened FlatRuns

  // ---- the bytes on the device ----

  /** A mount that succeeds found the tag, and slot `i` is the 64 bytes at 4096 + 64 i. */
  lemma MountReadsDevice(s: State, s': State, i: int)
    requires MountStep(s, 0, s') && 0 <= i < 64
    ensures 8192 <= |s.data| && s.data[1024..1028] == [0x42, 0x4D, 0x46, 0x53]
    ensures EntryAt(s.data, 4096 + 64 * i, s'.dir[i])
  {
    hide DecodeDir, EntryAt;
    DecodedSlot(DirBytes(s.data), i);
    EntryFurther(s.data, 4096, 8192, 64 * i, s'.dir[i]);
  }

  /** A flush that succeeds puts slot `i` there, and changes no byte outside the directory. */
  lemma FlushWritesDevice(before: seq<Byte>, bad: nat, dir: Dir, after: seq<Byte>, bad': nat, i: int)
    requires Flushed(before, bad, dir, true, after, bad') && 0 <= i < 64
    ensures 8192 <= |after| == |before| && EntryAt(after, 4096 + 64 * i, dir[i])
    ensures forall p | 0 <= p < |before| && !(4096 <= p < 8192) :: after[p] == before[p]
  {
    hide EncodeDir, EntryAt;
    assert after[4096..8192] == EncodeDir(dir);
    EncodedSlot(dir, i);
    EntryFurther(after, 4096, 8192, 64 * i, dir[i]);
  }

  // ---- lookup and the map of files ----

  /** A name is found exactly when there is a file of that name. */
  lemma FoundIffThere(s: State, name: CString)
    requires Inv(s) && s.initialized
    ensures Finds(s.dir, name, -1) <==> Clip(name) !in Files(s)
  {
    var rows := Rows(s.dir, s.data);
    RowsDistinct(s.dir, s.data);
    forall i | 0 <= i < SLOTS ensures Named(s.dir, i, name) <==> KeyAt(rows, i, Clip(name)) {
    }
    if Clip(name) in Files(s) {
      var i :| KeyAt(rows, i, Clip(name));
      assert Named(s.dir, i, name);
    } else {
      forall i | 0 <= i < SLOTS ensures !Named(s.dir, i, name) {
        if Named(s.dir, i, name) {
          FileOfSlot(s, i);
        }
      }
    }
  }

  /** The directory is full exactly when there are 64 files. */
  lemma FullIff64(s: State)
    requires Inv(s) && s.initialized
    ensures FreeSlot(s.dir, -1) <==> |Files(s)| == 64
  {
    hide Table;
    var rows := Rows(s.dir, s.data);
    RowsDistinct(s.dir, s.data);
    TableSize(rows);
    forall i | 0 <= i < SLOTS ensures rows[i].Used? <==> Live(s.dir, i) {
    }
    AllLive(s.dir);
  }

  lemma AllLive(dir: Dir)
    ensures FreeSlot(dir, -1) <==> forall i | 0 <= i < SLOTS :: Live(dir, i)
  {
    if forall i | 0 <= i < SLOTS :: Live(dir, i) {
      forall j | 0 <= j < SLOTS ensures dir[j].name[0] != DELETED && !EndAt(dir, j) {
        assert Live(dir, j);
      }
    }
  }

  /** The slot a create takes is the lowest one that holds no file. */
  lemma FreeSlotIsLowest(dir: Dir, slot: int)
    requires 0 <= slot && FreeSlot(dir, slot)
    ensures !Live(dir, slot) && forall j | 0 <= j < slot :: Live(dir, j)
  {
    assert EndAt(dir, slot) || dir[slot].name[0] == DELETED;
  }

  // ---- outcomes ----

  /**
   * An open gives a descriptor exactly when the volume is mounted and has the file: the one
   * already open on it, or else the lowest free one.  No other descriptor changes.
   */
  lemma OpenOutcome(s: State, name: CString, r: int, s': State)
    requires Inv(s) && OpenStep(s, name, r, s')
    ensures if !s.initialized || Clip(name) !in Files(s) then r == -1 && s' == s
            else
              && Usable(s', r) && NameOf(s', r) == Clip(name)
              && s' == s.(fds := s.fds[r := s'.fds[r]])
              && (if s.fds[r].inUse then s' == s else forall f | 0 <= f < r :: s.fds[f].inUse)
  {
    hide Files, WellFormed, FdsMirror, OpenFd;
    if s.initialized {
      FoundIffThere(s, name);
      if Clip(name) in Files(s) {
        var idx :| 0 <= idx && Finds(s.dir, name, idx) && OpensAt(s, idx, r, s');
        OpenSucceeds(s, name, idx, r, s');
        assert Named(s.dir, idx, name);
        assert s' == s ==> s.fds[r := s.fds[r]] == s.fds;
      }
    }
  }

  lemma CreateLands(s: State, name: CString, blocks: U64, r: int, s': State) returns (slot: int, start: U64)
    requires CreateStep(s, name, blocks, r, s') && !CreateRefused(s, name)
    ensures CreatesIn(s, name, Max(blocks, 1), slot, start, r, s')
  {
    hide CreatesIn, Finds, FreeSlot;
    slot, start :| CreatesIn(s, name, Max(blocks, 1), slot, start, r, s');
  }

  lemma NotRefused(s: State, name: CString, blocks: U64, r: int, s': State)
    requires CreateStep(s, name, blocks, r, s') && s' != s
    ensures !CreateRefused(s, name)
  {
    hide CreateRefused, CreatesIn;
  }

  /** Refusal in terms of the files. */
  lemma CreateRefusedIff(s: State, name: CString)
    requires Inv(s)
    ensures CreateRefused(s, name) <==>
            !s.initialized || !s.writable || BadName(name) || name in Files(s) || |Files(s)| == 64
  {
    hide Files, Inv, Finds, FreeSlot;
    if s.initialized && !BadName(name) {
      assert Clip(name) == name;
      FoundIffThere(s, name);
      FullIff64(s);
    }
  }

  lemma CreateChanges(s: State, name: CString, n: U64, slot: int, start: U64, r: int, s': State)
    requires GoodName(name) && n >= 1 && CreatesIn(s, name, n, slot, start, r, s')
    ensures s'.dir != s.dir && (if s'.badWrites == s.badWrites then r == 0 else r == -1)
  {
    hide Allocates, SaneExtents, EncodeDir;
    var e := NewEntry(name, start, n);
    assert e.name[0] == name[0] && name[0] in name;
    assert s'.dir[slot] == e != s.dir[slot];
  }

  /** Names that a create does not take. */
  predicate BadName(name: CString) { |name| == 0 || |name| >= 32 || name[0] == 1 }

  /**
   * A create is refused exactly when nothing is mounted, the device is read-only, the name
   * is empty, longer than 31 bytes or begins with byte 1, a file has it, or there are 64
   * files.  Otherwise it succeeds unless its flush fails.
   */
  lemma CreateOutcome(s: State, name: CString, blocks: U64, r: int, s': State)
    requires Inv(s) && CreateStep(s, name, blocks, r, s')
    ensures if !s.initialized || !s.writable || BadName(name) || name in Files(s) || |Files(s)| == 64 then
              r == -1 && s' == s
            else
              && s'.dir != s.dir
              && (if s'.badWrites == s.badWrites then r == 0 else r == -1)
  {
    hide Files, Inv, CreatesIn, CreateRefused;
    CreateRefusedIff(s, name);
    if !CreateRefused(s, name) {
      var slot, start := CreateLands(s, name, blocks, r, s');
      CreateChanges(s, name, Max(blocks, 1), slot, start, r, s');
    }
  }

  /** A delete is refused exactly when nothing is mounted, the device is read-only, or there is no such file. */
  lemma DeleteOutcome(s: State, name: CString, r: int, s': State)
    requires Inv(s) && DeleteStep(s, name, r, s')
    ensures if !s.initialized || !s.writable || Clip(name) !in Files(s) then r == -1 && s' == s
            else s'.dir != s.dir && (if s'.badWrites == s.badWrites then r == 0 else r == -1)
  {
    hide Files, WellFormed, FdsMirror, CloseOn;
    if s.initialized {
      FoundIffThere(s, name);
      if s.writable && Clip(name) in Files(s) {
        var idx :| 0 <= idx && Finds(s.dir, name, idx) && DeletesAt(s, idx, r, s');
        assert Named(s.dir, idx, name) && s'.dir[idx].name[0] == 1;
      }
    }
  }

  /** An unwrapped write is accepted exactly when it ends inside the reserved blocks of 2 MiB. */
  lemma AcceptsIff(s: State, fd: int, offset: U64, n: nat)
    requires Inv(s) && Usable(s, fd) && offset + n < TWO_TO_64
    ensures Accepts(s.fds[fd], offset, n) <==> offset + n <= s.dir[s.fds[fd].dirIndex].reserved * 0x20_0000
  {
    var idx := s.fds[fd].dirIndex;
    assert ExtentOk(s.dir, idx, |s.data|) && s.fds[fd] == OpenFd(s.dir, idx);
  }

  /**
   * A write is refused exactly when its descriptor is not open, the device is read-only, or it
   * would end behind the reserved blocks; otherwise all of it is written, or a transfer fails.
   */
  lemma WriteOutcome(s: State, fd: int, offset: U64, src: seq<Byte>, r: int, s': State)
    requires Inv(s) && WriteStep(s, fd, offset, src, r, s') && offset + |src| < TWO_TO_64
    ensures if !Usable(s, fd) || !s.writable then r == -1 && s' == s
            else if src == [] then r == 0 && s' == s
            else if offset + |src| > s.dir[s.fds[fd].dirIndex].reserved * 0x20_0000 then r == -1 && s' == s
            else r == |src| || (r == -1 && s'.badWrites + s'.badReads == s.badWrites + s.badReads + 1)
  {
    hide Inv, Accepts, Address, FullWrite;
    if Usable(s, fd) {
      AcceptsIff(s, fd, offset, |src|);
    }
  }

  /** A read through a descriptor that is not open fails; at the end of the file it gives 0; else the bytes up to the end, or a failed transfer. */
  lemma ReadOutcome(s: State, fd: int, offset: U64, size: U64, r: int, out: seq<Byte>, s': State)
    requires Inv(s) && ReadStep(s, fd, offset, size, r, out, s')
    ensures if !Usable(s, fd) then r == -1 && s' == s
            else
              && NameOf(s, fd) in Files(s)
              && var rest := Files(s)[NameOf(s, fd)].size - offset;
                 if size == 0 || rest <= 0 then r == 0 && s' == s
                 else (r == (if size <= rest then size else rest) && s' == s)
                      || (r == -1 && s' == s.(badReads := s.badReads + 1))
  {
    hide Files;
    if Usable(s, fd) {
      FileOfSlot(s, s.fds[fd].dirIndex);
    }
  }

  /** A sync succeeds exactly when the volume is mounted and no write fails. */
  lemma SyncOutcome(s: State, r: int, s': State)
    requires SyncStep(s, r, s')
    ensures if s.initialized && s'.badWrites == s.badWrites then r == 0 else r == -1
  {
  }

  /**
   * What a create that is not refused puts into the directory: in the lowest slot without a
   * file an empty file with as many blocks as asked for, at least one, at the lowest block
   * from 1 on where they meet no file.  `j` is a file in the way of a lower block `b`.
   */
  lemma CreateEffect(s: State, name: CString, blocks: U64, r: int, s': State, b: int) returns (slot: int, j: int)
    requires Inv(s) && CreateStep(s, name, blocks, r, s') && CreateGuard(s, name, blocks) && s'.dir != s.dir
    ensures 0 <= slot < 64 && !Live(s.dir, slot) && s'.dir == s.dir[slot := s'.dir[slot]]
    ensures forall i | 0 <= i < slot :: Live(s.dir, i)
    ensures var e := s'.dir[slot];
            && name <= e.name && (forall i | |name| <= i < 32 :: e.name[i] == 0)
            && e.reserved == (if blocks == 0 then 1 else blocks) && e.size == 0 && e.start >= 1
    ensures var e := s'.dir[slot];
            && (forall i | Live(s.dir, i) :: e.start + e.reserved <= s.dir[i].start || s.dir[i].start + s.dir[i].reserved <= e.start)
            && (1 <= b < e.start ==>
                  Live(s.dir, j) && s.dir[j].start < b + e.reserved && b < s.dir[j].start + s.dir[j].reserved)
  {
    hide FdsMirror, Flushed, Files;
    var n: U64 := Max(blocks, 1);
    NotRefused(s, name, blocks, r, s');
    var start: U64;
    slot, start := CreateLands(s, name, blocks, r, s');
    FreeSlotIsLowest(s.dir, slot);
    WellFormedIsSane(s.dir, |s.data|);
    CreateKeepsWellFormedIff(s.dir, |s.data|, slot, name, start, n);
    j := 0;
    if 1 <= b < start {
      assert !Fits(s.dir, b, n);
      j :| Live(s.dir, j) && Touches(s.dir, j, b, n);
    }
    forall i | Live(s.dir, i) ensures start + n <= s.dir[i].start || s.dir[i].start + s.dir[i].reserved <= start {
      assert !Touches(s.dir, i, start, n) && ExtentOk(s.dir, i, |s.data|);
    }
  }

  // ---- descriptors ----

  /** Descriptor `f` is open on the file called `n`. */
  ghost predicate OpenAs(s: State, f: int, n: seq<Byte>) { Usable(s, f) && NameOf(s, f) == n }

  /** The call closes a descriptor `f` that is open on `n`. */
  predicate Closes(s: State, op: Op, f: int, n: seq<Byte>) {
    match op
    case Mount => true
    case Close(fd) => fd == f
    case Delete(name) => s.writable && Clip(name) == n
    case _ => false
  }

  /** The call opens descriptor `f` on `n`. */
  predicate Opens(op: Op, r: int, f: int, n: seq<Byte>) { op.Open? && 0 <= r == f && Clip(op.name) == n }

  lemma MountCloses(s: State, r: int, s': State, f: int)
    requires MountStep(s, r, s')
    ensures !Usable(s', f)
  {
  }

  lemma OpenDescriptors(s: State, name: CString, r: int, s': State, f: int, n: seq<Byte>)
    requires Inv(s) && OpenStep(s, name, r, s')
    ensures OpenAs(s', f, n) <==> OpenAs(s, f, n) || (0 <= r == f && Clip(name) == n)
  {
    hide Inv, Files, OpenStep;
    OpenOutcome(s, name, r, s');
  }

  lemma WriteDescriptors(s: State, fd: int, offset: U64, src: seq<Byte>, r: int, s': State, f: int, n: seq<Byte>)
    requires WriteStep(s, fd, offset, src, r, s')
    ensures OpenAs(s', f, n) <==> OpenAs(s, f, n)
  {
  }

  lemma CreateDescriptors(s: State, name: CString, blocks: U64, r: int, s': State, f: int, n: seq<Byte>)
    requires Inv(s) && CreateStep(s, name, blocks, r, s') && CreateGuard(s, name, blocks)
    ensures OpenAs(s', f, n) <==> OpenAs(s, f, n)
  {
    hide WellFormed, Flushed;
    if s'.dir != s.dir {
      var slot, j := CreateEffect(s, name, blocks, r, s', 0);
      CreateKeepsFds(s, name, blocks, r, s');
    } else if s' != s {
      CreateRefines(s, name, blocks, r, s');
    }
  }

  lemma CreateKeepsFds(s: State, name: CString, blocks: U64, r: int, s': State)
    requires CreateStep(s, name, blocks, r, s')
    ensures s'.fds == s.fds && s'.initialized == s.initialized
  {
    hide Finds, FreeSlot, Flushed, CreatedDir, NewEntry;
  }

  lemma DeleteDescriptors(s: State, name: CString, r: int, s': State, f: int, n: seq<Byte>)
    requires Inv(s) && DeleteStep(s, name, r, s')
    ensures OpenAs(s', f, n) <==> OpenAs(s, f, n) && !(s.writable && Clip(name) == n)
    ensures OpenAs(s', f, n) ==> s'.fds[f] == s.fds[f]
  {
    hide Flushed, Text;
    if s.initialized && s.writable {
      if Finds(s.dir, name, -1) {
        assert Usable(s, f) ==> !Named(s.dir, s.fds[f].dirIndex, name);
      } else {
        var idx :| 0 <= idx && Finds(s.dir, name, idx) && DeletesAt(s, idx, r, s');
        DeleteAtDescriptors(s, name, idx, r, s', f, n);
      }
    }
  }

  lemma DeleteAtDescriptors(s: State, name: CString, idx: int, r: int, s': State, f: int, n: seq<Byte>)
    requires Inv(s) && s.initialized && 0 <= idx && Finds(s.dir, name, idx) && DeletesAt(s, idx, r, s')
    ensures OpenAs(s', f, n) <==> OpenAs(s, f, n) && Clip(name) != n
    ensures OpenAs(s', f, n) ==> s'.fds[f] == s.fds[f]
  {
    hide Flushed, Text;
    assert Named(s.dir, idx, name);
    if Usable(s, f) {
      var d := s.fds[f].dirIndex;
      assert d != idx ==> Apart(s.dir, d, idx);
    }
  }

  /**
   * After every guarded call: a descriptor is open on a file exactly when it was and the call
   * did not close it, or the call was the open that gave it.
   */
  lemma DescriptorStep(s: State, op: Op, r: int, s': State, f: int, n: seq<Byte>)
    requires Inv(s) && Guard(s, op) && Step(s, op, r, s')
    ensures OpenAs(s', f, n) <==> (OpenAs(s, f, n) && !Closes(s, op, f, n)) || Opens(op, r, f, n)
  {
    hide Inv, OpenStep, WriteStep, CreateStep, DeleteStep, MountStep, CreateGuard;
    match op
    case Mount => MountCloses(s, r, s', f);
    case Open(name) => OpenDescriptors(s, name, r, s', f, n);
    case Close(fd) =>
    case ReadAt(fd, offset, size, out) =>
    case WriteAt(fd, offset, src) => WriteDescriptors(s, fd, offset, src, r, s', f, n);
    case Create(name, blocks) => CreateDescriptors(s, name, blocks, r, s', f, n);
    case Delete(name) => DeleteDescriptors(s, name, r, s', f, n);
    case Sync =>
  }

  /** Over whole runs a descriptor stays on its file until it is closed, the file is deleted, or a mount happens. */
  lemma {:induction false} RunKeepsDescriptor(states: seq<State>, events: seq<Event>, f: int, n: seq<Byte>)
    requires Run(states, events) && Inv(states[0]) && OpenAs(states[0], f, n)
    requires forall i | 0 <= i < |events| :: !Closes(states[i], events[i].op, f, n)
    ensures OpenAs(states[|events|], f, n)
    decreases |events|
  {
    hide Inv, Step, Guard, OpenAs, Closes;
    if |events| > 0 {
      var m := |events| - 1;
      RunPrefix(states, events, m);
      RunKeepsInv(states, events);
      RunKeepsDescriptor(states[..m + 1], events[..m], f, n);
      assert states[..m + 1][m] == states[m];
      DescriptorStep(states[m], events[m].op, events[m].r, states[m + 1], f, n);
    }
  }

  /**
   * A write and a read through one descriptor: after a complete write and any run that neither
   * closes the descriptor nor disturbs byte `k`, it is still open on the file and a read through
   * it that covers the byte returns what was written, unless its own transfer fails.
   */
  lemma ReadsBackThroughDescriptor(s: State, w: Op, states: seq<State>, events: seq<Event>,
                                   rd: Op, rr: int, s': State, n: seq<Byte>, k: int)
    requires Inv(s) && Run(states, events)
    requires w.WriteAt? && Guard(s, w) && Step(s, w, |w.src|, states[0])
    requires OpenAs(s, w.fd, n) && w.offset <= k < w.offset + |w.src|
    requires forall i | 0 <= i < |events| :: !Closes(states[i], events[i].op, w.fd, n) && !Disturbs(states[i], events[i].op, n, k)
    requires var last := states[|events|];
             && rd.ReadAt? && rd.fd == w.fd && Step(last, rd, rr, s') && s'.badReads == last.badReads
             && rd.offset <= k < rd.offset + rd.size
    ensures OpenAs(states[|events|], rd.fd, n)
    ensures k < rd.offset + rr && |rd.out| == rr && rd.out[k - rd.offset] == w.src[k - w.offset]
  {
    hide Inv, Step, Guard, Closes, Disturbs;
    StepKeepsInv(s, w, |w.src|, states[0]);
    StillOpen(s, w, states[0], n);
    RunKeepsDescriptor(states, events, w.fd, n);
    ReadsLastWrite(s, w, |w.src|, states, events, rd, rr, s', n, k);
  }

  lemma StillOpen(s: State, w: Op, s': State, n: seq<Byte>)
    requires Inv(s) && w.WriteAt? && Guard(s, w) && Step(s, w, |w.src|, s') && OpenAs(s, w.fd, n)
    ensures OpenAs(s', w.fd, n)
  {
    hide Inv, WriteStep;
    WriteDescriptors(s, w.fd, w.offset, w.src, |w.src|, s', w.fd, n);
  }
}
