/** Every call on the volume as an operation on named flat files, and bytes over whole runs. */
module FlatSteps {
  import opened Bytes
  import opened SectorDisk
  import opened Directory
  import opened Volume
  import opened VolumeSafety
  import opened VolumeSteps
  import opened FlatFiles
  import opened Tables

  /** Bytes outside block 0 decide every row. */
  lemma SameDataArea(s: State, s': State, j: int)
    requires Inv(s) && 0 <= j < SLOTS && |s'.data| == |s.data| && HasRoom(s'.data)
    requires forall p | BLOCK <= p < |s.data| :: s'.data[p] == s.data[p]
    requires Live(CurrentDir(s), j) <==> Live(CurrentDir(s'), j)
    requires Live(CurrentDir(s), j) ==> CurrentDir(s')[j] == CurrentDir(s)[j]
    ensures RowAt(CurrentDir(s'), s'.data, j) == RowAt(CurrentDir(s), s.data, j)
  {
    if Live(CurrentDir(s), j) {
      assert ExtentOk(CurrentDir(s), j, |s.data|);
    }
    SameRow(CurrentDir(s), s.data, CurrentDir(s'), s'.data, j);
  }

  /** A flush moves no file. */
  lemma SameFiles(s: State, s': State)
    requires Inv(s) && Inv(s') && CurrentDir(s') == CurrentDir(s) && |s'.data| == |s.data|
    requires forall p | BLOCK <= p < |s.data| :: s'.data[p] == s.data[p]
    ensures Files(s') == Files(s)
  {
    var rows, rows' := Rows(CurrentDir(s), s.data), Rows(CurrentDir(s'), s'.data);
    forall j | 0 <= j < SLOTS ensures rows'[j] == rows[j] {
      SameDataArea(s, s', j);
    }
    assert rows' == rows;
  }

  // ---- torn writes ----

  lemma TornRows(s: State, fd: int, offset: U64, src: seq<Byte>, s': State)
    requires Inv(s) && Usable(s, fd) && src != [] && offset + |src| < TWO_TO_64 && Accepts(s.fds[fd], offset, |src|)
    requires TornWrite(s, Address(s.fds[fd], offset), src, s')
    ensures forall j | 0 <= j < SLOTS && j != s.fds[fd].dirIndex :: RowAt(s'.dir, s'.data, j) == RowAt(s.dir, s.data, j)
  {
    var idx := s.fds[fd].dirIndex;
    var at := Address(s.fds[fd], offset);
    WriteLands(s, fd, offset, |src|);
    forall j | 0 <= j < SLOTS && j != idx ensures RowAt(s'.dir, s'.data, j) == RowAt(s.dir, s.data, j) {
      if Live(s.dir, j) {
        forall p | s.dir[j].start * BLOCK <= p < (s.dir[j].start + s.dir[j].reserved) * BLOCK && p < |s.data|
          ensures s'.data[p] == s.data[p]
        {
          WriteElsewhere(s, idx, j, p, at, |src|);
        }
      }
      SameRow(s.dir, s.data, s'.dir, s'.data, j);
    }
  }

  lemma TornExtent(dir: Dir, data: seq<Byte>, data': seq<Byte>, idx: int, offset: nat, src: seq<Byte>)
    requires 0 <= idx < SLOTS && PartlyWritten(data, dir[idx].start * BLOCK + offset, src, data')
    ensures PartlyWritten(Extent(dir, data, idx), offset, src, Extent(dir, data', idx))
  {
    var b, b' := Extent(dir, data, idx), Extent(dir, data', idx);
    assert |b'| == |b|;
  }

  lemma TornFile(s: State, fd: int, offset: U64, src: seq<Byte>, s': State)
    requires Inv(s) && Usable(s, fd) && src != [] && offset + |src| < TWO_TO_64 && Accepts(s.fds[fd], offset, |src|)
    requires TornWrite(s, Address(s.fds[fd], offset), src, s')
    ensures var idx := s.fds[fd].dirIndex;
            FlatTorn(FileAt(s.dir, s.data, idx), offset, src, FileAt(s'.dir, s'.data, idx))
  {
    WriteLands(s, fd, offset, |src|);
    TornExtent(s.dir, s.data, s'.data, s.fds[fd].dirIndex, offset, src);
  }

  /** A failed write may leave some of its bytes behind, in its own file and nowhere else. */
  lemma TornWriteRefines(s: State, fd: int, offset: U64, src: seq<Byte>, s': State)
    requires Inv(s) && Inv(s') && Usable(s, fd) && src != [] && offset + |src| < TWO_TO_64
    requires Accepts(s.fds[fd], offset, |src|)
    requires TornWrite(s, Address(s.fds[fd], offset), src, s')
    ensures NameOf(s, fd) in Files(s) && NameOf(s, fd) in Files(s')
    ensures Files(s') == Files(s)[NameOf(s, fd) := Files(s')[NameOf(s, fd)]]
    ensures FlatTorn(Files(s)[NameOf(s, fd)], offset, src, Files(s')[NameOf(s, fd)])
  {
    var idx := s.fds[fd].dirIndex;
    FileOfSlot(s, idx);
    FileOfSlot(s', idx);
    TornRows(s, fd, offset, src, s');
    TornFile(s, fd, offset, src, s');
    OneFileChanges(s, s', idx);
  }

  // ---- create and delete ----

  /** A create adds one empty file under a new name. */
  lemma CreateRefines(s: State, name: CString, blocks: U64, r: int, s': State)
    requires Inv(s) && Inv(s') && CreateStep(s, name, blocks, r, s') && CreateGuard(s, name, blocks)
    ensures r == 0 ==> s'.dir != s.dir
    ensures s'.dir == s.dir ==> s' == s
    ensures s'.dir != s.dir ==>
              && name !in Files(s) && name in Files(s') && Files(s')[name].size == 0
              && Files(s') == Files(s)[name := Files(s')[name]]
  {
    if s' != s {
      var n := Max(blocks, 1);
      var slot, start :| CreatesIn(s, name, n, slot, start, r, s');
      CreateAddsFile(s, name, n, slot, start, r, s');
    }
  }

  lemma NotFoundNotThere(s: State, name: CString)
    requires Inv(s) && s.initialized && Finds(s.dir, name, -1) && |name| <= NAME_LEN
    ensures name !in Files(s)
  {
    assert Clip(name) == name;
    forall i ensures !KeyAt(Rows(s.dir, s.data), i, name) {
      if 0 <= i < SLOTS {
        assert !Named(s.dir, i, name);
      }
    }
  }

  lemma CreateAddsFile(s: State, name: CString, n: U64, slot: int, start: U64, r: int, s': State)
    requires Inv(s) && Inv(s') && s.initialized && GoodName(name) && Finds(s.dir, name, -1) && n >= 1
    requires CreatesIn(s, name, n, slot, start, r, s') && EndFollows(s.dir, slot)
    ensures s'.dir != s.dir
    ensures name !in Files(s) && name in Files(s') && Files(s')[name].size == 0
    ensures Files(s') == Files(s)[name := Files(s')[name]]
  {
    var e := NewEntry(name, start, n);
    assert e.name[0] == name[0] && name[0] in name;
    FlushKeepsRest(s.data, s.badWrites, s'.dir, r == 0, s'.data, s'.badWrites);
    CreatedLive(s.dir, slot, e);
    assert Live(s.dir, slot) ==> !EndAt(s.dir, slot);
    forall j | 0 <= j < SLOTS && j != slot ensures RowAt(s'.dir, s'.data, j) == RowAt(s.dir, s.data, j) {
      SameDataArea(s, s', j);
    }
    TextOfPadded(name);
    OneFileChanges(s, s', slot);
    NotFoundNotThere(s, name);
    FileOfSlot(s', slot);
  }

  /** A delete removes one name. */
  lemma DeleteRefines(s: State, name: CString, r: int, s': State)
    requires Inv(s) && Inv(s') && DeleteStep(s, name, r, s')
    ensures r == 0 ==> s' != s
    ensures s' == s || (Clip(name) in Files(s) && Files(s') == Files(s) - {Clip(name)})
  {
    if s' != s {
      var idx :| 0 <= idx && Finds(s.dir, name, idx) && DeletesAt(s, idx, r, s');
      assert Named(s.dir, idx, name);
      DeleteDropsFile(s, idx, r, s');
    }
  }

  lemma DeleteRows(s: State, idx: int, r: int, s': State)
    requires Inv(s) && Inv(s') && s.initialized && Live(s.dir, idx) && DeletesAt(s, idx, r, s')
    ensures RowAt(s'.dir, s'.data, idx) == Free
    ensures forall j | 0 <= j < SLOTS && j != idx :: RowAt(s'.dir, s'.data, j) == RowAt(s.dir, s.data, j)
  {
    hide Flushed, FdsMirror, WellFormed, Text;
    FlushKeepsRest(s.data, s.badWrites, s'.dir, r == 0, s'.data, s'.badWrites);
    DeletedLive(s.dir, idx);
    forall j | 0 <= j < SLOTS && j != idx ensures RowAt(s'.dir, s'.data, j) == RowAt(s.dir, s.data, j) {
      SameDataArea(s, s', j);
    }
  }

  lemma DeleteDropsFile(s: State, idx: int, r: int, s': State)
    requires Inv(s) && Inv(s') && s.initialized && Live(s.dir, idx) && DeletesAt(s, idx, r, s')
    ensures Text(s.dir[idx].name) in Files(s) && Files(s') == Files(s) - {Text(s.dir[idx].name)}
  {
    hide Table, Flushed, FdsMirror, WellFormed, Text, RowAt;
    DeleteRows(s, idx, r, s');
    FileOfSlot(s, idx);
    var rows, rows' := Rows(s.dir, s.data), Rows(s'.dir, s'.data);
    RowsDistinct(s.dir, s.data);
    RowsDistinct(s'.dir, s'.data);
    assert rows' == rows[idx := Free];
    RowOfFile(s.dir, s.data, idx);
    TableRemove(rows, rows', idx);
  }

  lemma RowOfFile(dir: Dir, data: seq<Byte>, i: int)
    requires Live(dir, i)
    ensures RowAt(dir, data, i).Used? && RowAt(dir, data, i).key == Text(dir[i].name)
  {
  }
}
