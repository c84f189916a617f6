/** Well-formed volumes, and what every filesystem call keeps of them. */
module VolumeSafety {
  import opened Bytes
  import opened Directory
  import opened Allocator
  import opened Volume

  // ---- well-formed directories ----

  /** Behind the first end marker there are only end markers. */
  ghost predicate Normalised(dir: Dir) {
    forall i, j | 0 <= i < j < SLOTS && EndAt(dir, i) :: EndAt(dir, j)
  }

  /** The extent of slot `i` lies in the data area and holds the file, on a device of `len` bytes. */
  predicate ExtentOk(dir: Dir, i: int, len: int)
    requires 0 <= i < SLOTS
  {
    var e := dir[i];
    && 1 <= e.start && 1 <= e.reserved && e.start + e.reserved <= MAX_BLOCK
    && e.size <= e.reserved * BLOCK
    && (e.size > 0 ==> e.start * BLOCK + e.size <= len)
  }

  /** The files in two slots have different names and share no block. */
  predicate Apart(dir: Dir, i: int, j: int)
    requires 0 <= i < SLOTS && 0 <= j < SLOTS
  {
    && Text(dir[i].name) != Text(dir[j].name)
    && (dir[i].start + dir[i].reserved <= dir[j].start || dir[j].start + dir[j].reserved <= dir[i].start)
  }

  ghost predicate WellFormed(dir: Dir, len: int) {
    && Normalised(dir)
    && (forall i | Live(dir, i) :: ExtentOk(dir, i, len))
    && (forall i, j | Live(dir, i) && Live(dir, j) && i != j :: Apart(dir, i, j))
  }

  /** Open descriptors copy live entries, no two the same one. */
  ghost predicate FdsMirror(dir: Dir, fds: Fds) {
    && (forall f | 0 <= f < SLOTS && fds[f].inUse ::
          Live(dir, fds[f].dirIndex) && fds[f] == OpenFd(dir, fds[f].dirIndex))
    && (forall f, g | 0 <= f < g < SLOTS && fds[f].inUse && fds[g].inUse :: fds[f].dirIndex != fds[g].dirIndex)
  }

  /** The directory in force: the cached one, or the one a mount would read. */
  function CurrentDir(s: State): Dir
    requires HasRoom(s.data)
  {
    if s.initialized then s.dir else DiskDir(s.data)
  }

  /** The cached directory is the one on the device. */
  ghost predicate OnDevice(s: State)
    requires HasRoom(s.data)
  {
    DirBytes(s.data) == EncodeDir(s.dir)
  }

  /** The directory on the device is well formed, so that it may be mounted. */
  ghost predicate Mountable(data: seq<Byte>) {
    HasRoom(data) && WellFormed(DiskDir(data), |data|)
  }

  /** What holds between calls: the tag, a well-formed directory in force and faithful descriptors. */
  ghost predicate Inv(s: State) {
    && |s.data| < TWO_TO_64
    && HasTag(s.data)
    && WellFormed(CurrentDir(s), |s.data|)
    && (if s.initialized then FdsMirror(s.dir, s.fds) else forall f | 0 <= f < SLOTS :: !s.fds[f].inUse)
  }

  /** A freshly formatted device, tag in place and directory region zero, is a good volume. */
  lemma FormattedVolumeIsGood(s: State)
    requires !s.initialized && |s.data| < TWO_TO_64 && HasTag(s.data)
    requires forall i | 0 <= i < DIR_LEN :: DirBytes(s.data)[i] == 0
    requires forall f | 0 <= f < SLOTS :: !s.fds[f].inUse
    ensures Inv(s) && forall i :: !Live(CurrentDir(s), i)
  {
    hide DecodeDir;
    var b := DirBytes(s.data);
    var dir: Dir := DiskDir(s.data);
    forall i | 0 <= i < SLOTS ensures EndAt(dir, i) && !Live(dir, i) {
      DecodedName(b, i);
      assert b[ENTRY_LEN * i..ENTRY_LEN * i + NAME_LEN][0] == b[ENTRY_LEN * i];
      assert EndAt(dir, i);
    }
  }

  // ---- the directory region ----

  /** Flushing the directory keeps the tag and every byte of the data area. */
  lemma FlushKeepsRest(before: seq<Byte>, bad: nat, dir: Dir, ok: bool, after: seq<Byte>, bad': nat)
    requires HasTag(before) && Flushed(before, bad, dir, ok, after, bad')
    ensures |after| == |before| && HasTag(after)
    ensures forall i | BLOCK <= i < |before| :: after[i] == before[i]
    ensures bad <= bad' && (bad' == bad ==> DirBytes(after) == EncodeDir(dir))
  {
    assert after[TAG_OFFSET..TAG_OFFSET + 4] == before[TAG_OFFSET..TAG_OFFSET + 4];
  }

  // ---- create ----

  /** Which slots hold files after a create, with and without an end marker behind the slot. */
  lemma CreatedLive(dir: Dir, slot: int, e: Entry)
    requires Normalised(dir) && 0 <= slot && FreeSlot(dir, slot)
    requires e.name[0] != END && e.name[0] != DELETED
    ensures forall j :: Live(CreatedDir(dir, slot, e), j)
                        <==> j == slot || (Live(dir, j) && (EndFollows(dir, slot) || j < slot))
    ensures CreatedDir(dir, slot, e)[slot] == e
    ensures forall j | Live(CreatedDir(dir, slot, e), j) && j != slot :: CreatedDir(dir, slot, e)[j] == dir[j]
  {
    var d := CreatedDir(dir, slot, e);
    forall j ensures Live(d, j) <==> j == slot || (Live(dir, j) && (EndFollows(dir, slot) || j < slot)) {
      if 0 <= j < slot {
        assert forall k | 0 <= k <= j :: EndAt(d, k) == EndAt(dir, k);
      } else if j == slot {
        assert forall k | 0 <= k < slot :: EndAt(d, k) == EndAt(dir, k);
        assert !EndAt(d, slot);
      } else if slot < j < SLOTS {
        if !EndFollows(dir, slot) {
          assert EndAt(d, slot + 1);
        } else {
          assert EndAt(dir, slot) ==> EndAt(dir, j) && EndAt(d, j);
          assert forall k | 0 <= k <= j && k != slot :: EndAt(d, k) == EndAt(dir, k);
          assert !EndAt(d, slot);
        }
      }
    }
  }

  /**
   * A create keeps every other file at its slot exactly when an end marker follows
   * the slot it takes, or no file sits behind that slot; otherwise it hides those files.
   */
  lemma CreateKeepsOthersIff(dir: Dir, slot: int, e: Entry)
    requires Normalised(dir) && 0 <= slot && FreeSlot(dir, slot)
    requires e.name[0] != END && e.name[0] != DELETED
    ensures (forall j | Live(dir, j) :: Live(CreatedDir(dir, slot, e), j) && CreatedDir(dir, slot, e)[j] == dir[j])
            <==> EndFollows(dir, slot) || forall j | Live(dir, j) :: j < slot
    ensures !EndFollows(dir, slot) ==>
              forall j | Live(dir, j) && slot < j :: !Live(CreatedDir(dir, slot, e), j)
  {
    CreatedLive(dir, slot, e);
    assert Live(dir, slot) ==> !EndAt(dir, slot);
  }

  /** The new file is found by its name, at the slot it took. */
  lemma CreateIsFound(dir: Dir, slot: int, name: CString, start: U64, n: U64)
    requires Normalised(dir) && 0 <= slot && FreeSlot(dir, slot) && GoodName(name) && Finds(dir, name, -1)
    ensures Finds(CreatedDir(dir, slot, NewEntry(name, start, n)), name, slot)
  {
    var e := NewEntry(name, start, n);
    var d := CreatedDir(dir, slot, e);
    TextOfPadded(name);
    assert e.name[0] == name[0] && name[0] in name;
    CreatedLive(dir, slot, e);
    forall j | 0 <= j < slot ensures !Named(d, j, name) {
      assert !Named(dir, j, name);
    }
  }

  lemma CreatedNormalised(dir: Dir, slot: int, e: Entry)
    requires Normalised(dir) && 0 <= slot && FreeSlot(dir, slot) && EndFollows(dir, slot)
    requires e.name[0] != END && e.name[0] != DELETED
    ensures Normalised(CreatedDir(dir, slot, e))
  {
    var d := CreatedDir(dir, slot, e);
    forall i, j | 0 <= i < j < SLOTS && EndAt(d, i) ensures EndAt(d, j) {
      assert i != slot && EndAt(dir, i);
      assert EndAt(dir, j);
    }
  }

  /** Without an end marker behind the slot, the one a create puts there is the only one exactly in slot 63. */
  lemma CreatedNormalisedIff(dir: Dir, slot: int, e: Entry)
    requires Normalised(dir) && 0 <= slot && FreeSlot(dir, slot)
    requires e.name[0] != END && e.name[0] != DELETED
    ensures Normalised(CreatedDir(dir, slot, e)) <==> EndFollows(dir, slot) || slot == 62
  {
    var d := CreatedDir(dir, slot, e);
    if EndFollows(dir, slot) {
      CreatedNormalised(dir, slot, e);
    } else if slot == 62 {
      forall i | 0 <= i < 63 ensures !EndAt(d, i) {
        assert i < 62 ==> !EndAt(dir, i);
      }
    } else {
      assert EndAt(d, slot + 1) && !EndAt(dir, 63) && !EndAt(d, 63);
    }
  }

  /**
   * A create leaves a well-formed directory exactly when the run it reserved has 64-bit
   * byte addresses and an end marker follows its slot, or would in slot 63.
   */
  lemma CreateKeepsWellFormedIff(dir: Dir, len: int, slot: int, name: CString, start: U64, n: U64)
    requires WellFormed(dir, len) && 0 <= slot && FreeSlot(dir, slot)
    requires GoodName(name) && Finds(dir, name, -1)
    requires n >= 1 && start >= 1 && Allocates(dir, n, start)
    ensures WellFormed(CreatedDir(dir, slot, NewEntry(name, start, n)), len)
            <==> start + n <= MAX_BLOCK && (EndFollows(dir, slot) || slot == 62)
    ensures start + n <= MAX_BLOCK <==> exists b :: LowestFit(dir, n, b) && b + n <= MAX_BLOCK
  {
    hide Normalised;
    var e := NewEntry(name, start, n);
    var d := CreatedDir(dir, slot, e);
    assert e.name[0] == name[0] && name[0] in name;
    CreatedLive(dir, slot, e);
    CreatedNormalisedIff(dir, slot, e);
    if start + n <= MAX_BLOCK {
      forall j | Live(d, j) && j != slot ensures Apart(d, slot, j) && Apart(d, j, slot) {
        TextOfPadded(name);
        assert !Named(dir, j, name);
        assert !Touches(dir, j, start, n);
      }
      forall i, j | Live(d, i) && Live(d, j) && i != j ensures Apart(d, i, j) {
        if i != slot && j != slot {
          assert Apart(dir, i, j);
        }
      }
      forall i | Live(d, i) ensures ExtentOk(d, i, len) {
        if i != slot {
          assert ExtentOk(dir, i, len);
        }
      }
    } else {
      assert Live(d, slot) && !ExtentOk(d, slot, len);
    }
    if b: int :| LowestFit(dir, n, b) && b + n <= MAX_BLOCK {
      assert start + n < TWO_TO_64;
      assert start <= b;
    }
  }

  lemma WellFormedIsSane(dir: Dir, len: int)
    requires WellFormed(dir, len)
    ensures SaneExtents(dir)
  {
    forall i | Live(dir, i) ensures dir[i].reserved >= 1 && dir[i].start + dir[i].reserved < TWO_TO_64 {
      assert ExtentOk(dir, i, len);
    }
  }

  // ---- delete ----

  lemma DeletedLive(dir: Dir, idx: int)
    requires Live(dir, idx)
    ensures forall j :: Live(DeletedDir(dir, idx), j) <==> Live(dir, j) && j != idx
    ensures Normalised(dir) ==> Normalised(DeletedDir(dir, idx))
  {
    var d := DeletedDir(dir, idx);
    assert forall k | 0 <= k < SLOTS :: EndAt(d, k) == EndAt(dir, k);
  }

  /** Fewer files, the rest as they were: still well formed. */
  lemma FewerFiles(dir: Dir, d: Dir, len: int)
    requires WellFormed(dir, len) && Normalised(d)
    requires forall j | Live(d, j) :: Live(dir, j) && d[j] == dir[j]
    ensures WellFormed(d, len)
  {
    forall i | Live(d, i) ensures ExtentOk(d, i, len) {
      assert ExtentOk(dir, i, len);
    }
    forall i, j | Live(d, i) && Live(d, j) && i != j ensures Apart(d, i, j) {
      assert Apart(dir, i, j);
    }
  }

  // ---- growing a file ----

  lemma GrownLive(dir: Dir, idx: int, size: U64)
    requires 0 <= idx < SLOTS
    ensures forall j :: Live(dir[idx := dir[idx].(size := size)], j) <==> Live(dir, j)
    ensures Normalised(dir) ==> Normalised(dir[idx := dir[idx].(size := size)])
  {
    var d := dir[idx := dir[idx].(size := size)];
    assert forall k | 0 <= k < SLOTS :: EndAt(d, k) == EndAt(dir, k);
  }

  lemma GrowKeepsWellFormed(dir: Dir, len: int, idx: int, size: U64)
    requires WellFormed(dir, len) && Live(dir, idx)
    requires size <= dir[idx].reserved * BLOCK && dir[idx].start * BLOCK + size <= len
    ensures WellFormed(dir[idx := dir[idx].(size := size)], len)
  {
    var d := dir[idx := dir[idx].(size := size)];
    GrownLive(dir, idx, size);
    forall i | Live(d, i) ensures ExtentOk(d, i, len) {
      assert ExtentOk(dir, i, len);
    }
    forall i, j | Live(d, i) && Live(d, j) && i != j ensures Apart(d, i, j) {
      assert Apart(dir, i, j);
    }
  }
}
