/**
 * The volume seen as a map from names to flat byte arrays, and the proof that every
 * filesystem call acts on it as the plain operation on byte arrays would.
 */
module FlatFiles {
  import opened Bytes
  import opened SectorDisk
  import opened Directory
  import opened Volume
  import opened VolumeSafety
  import opened VolumeSteps
  import opened Tables

  /** The reserved bytes of a file that the device has, and how many of them count. */
  datatype File = File(extent: seq<Byte>, size: nat)

  function Extent(dir: Dir, data: seq<Byte>, i: int): (b: seq<Byte>)
    requires 0 <= i < SLOTS
    ensures forall k | 0 <= k < |b| :: dir[i].start * BLOCK + k < |data| && b[k] == data[dir[i].start * BLOCK + k]
    ensures dir[i].start * BLOCK + |b| == (dir[i].start + dir[i].reserved) * BLOCK || dir[i].start * BLOCK + |b| >= |data|
  {
    var lo := dir[i].start * BLOCK;
    if lo >= |data| then [] else data[lo..Min((dir[i].start + dir[i].reserved) * BLOCK, |data|)]
  }

  function FileAt(dir: Dir, data: seq<Byte>, i: int): File
    requires 0 <= i < SLOTS
  {
    File(Extent(dir, data, i), dir[i].size)
  }

  /** One row per slot; names are keys. */
  ghost function Rows(dir: Dir, data: seq<Byte>): (rows: seq<Row<seq<Byte>, File>>)
    ensures |rows| == SLOTS
    ensures forall i | 0 <= i < SLOTS :: rows[i] == RowAt(dir, data, i)
  {
    seq(SLOTS, i requires 0 <= i < SLOTS => RowAt(dir, data, i))
  }

  ghost function RowAt(dir: Dir, data: seq<Byte>, i: int): Row<seq<Byte>, File>
    requires 0 <= i < SLOTS
  {
    if Live(dir, i) then Used(Text(dir[i].name), FileAt(dir, data, i)) else Free
  }

  lemma RowsDistinct(dir: Dir, data: seq<Byte>)
    requires WellFormed(dir, |data|)
    ensures DistinctKeys(Rows(dir, data))
  {
    var rows := Rows(dir, data);
    forall i, j | 0 <= i < j < SLOTS && rows[i].Used? && rows[j].Used? ensures rows[i].key != rows[j].key {
      assert Apart(dir, i, j);
    }
  }

  /** The volume as a map from names to files. */
  ghost function Files(s: State): map<seq<Byte>, File>
    requires Inv(s)
  {
    RowsDistinct(CurrentDir(s), s.data);
    Table(Rows(CurrentDir(s), s.data))
  }

  // ---- what a plain map of byte arrays would do ----

  function FlatWrite(f: File, offset: nat, src: seq<Byte>): File
    requires offset + |src| <= |f.extent|
  {
    File(Splice(f.extent, offset, src), Max(f.size, offset + |src|))
  }

  /** A write that failed half way: same size, every byte old or new. */
  ghost predicate FlatTorn(f: File, offset: nat, src: seq<Byte>, f': File) {
    f'.size == f.size && PartlyWritten(f.extent, offset, src, f'.extent)
  }

  /** The name of the file behind an open descriptor. */
  ghost function NameOf(s: State, fd: int): seq<Byte>
    requires Usable(s, fd)
  {
    Text(s.dir[s.fds[fd].dirIndex].name)
  }

  // ---- extents under change ----

  lemma SameRow(dir: Dir, data: seq<Byte>, dir': Dir, data': seq<Byte>, i: int)
    requires 0 <= i < SLOTS && |data'| == |data| && (Live(dir, i) <==> Live(dir', i))
    requires Live(dir, i) ==> dir'[i] == dir[i]
    requires Live(dir, i) ==> forall p | dir[i].start * BLOCK <= p < (dir[i].start + dir[i].reserved) * BLOCK && p < |data| ::
                                data'[p] == data[p]
    ensures RowAt(dir', data', i) == RowAt(dir, data, i)
  {
    if Live(dir, i) {
      var b, b' := Extent(dir, data, i), Extent(dir', data', i);
      assert |b| == |b'|;
      assert b' == b;
    }
  }

  /** The file in a live slot is the file under its name. */
  lemma FileOfSlot(s: State, i: int)
    requires Inv(s) && Live(CurrentDir(s), i)
    ensures Text(CurrentDir(s)[i].name) in Files(s)
    ensures Files(s)[Text(CurrentDir(s)[i].name)] == FileAt(CurrentDir(s), s.data, i)
  {
    assert RowAt(CurrentDir(s), s.data, i).Used?;
    assert Rows(CurrentDir(s), s.data)[i].Used?;
  }

  /** Changing the row of one slot changes the file of one name. */
  lemma OneFileChanges(s: State, s': State, i: int)
    requires Inv(s) && Inv(s') && Live(CurrentDir(s'), i)
    requires forall j | 0 <= j < SLOTS && j != i ::
               RowAt(CurrentDir(s'), s'.data, j) == RowAt(CurrentDir(s), s.data, j)
    requires Live(CurrentDir(s), i) ==> CurrentDir(s')[i].name == CurrentDir(s)[i].name
    ensures Files(s') == Files(s)[Text(CurrentDir(s')[i].name) := FileAt(CurrentDir(s'), s'.data, i)]
  {
    var rows, rows' := Rows(CurrentDir(s), s.data), Rows(CurrentDir(s'), s'.data);
    RowsDistinct(CurrentDir(s), s.data);
    RowsDistinct(CurrentDir(s'), s'.data);
    assert rows' == rows[i := rows'[i]];
    TableUpdate(rows, rows', i);
  }

  // ---- reading ----

  lemma SliceOfExtent(dir: Dir, data: seq<Byte>, idx: int, offset: nat, out: seq<Byte>)
    requires 0 <= idx < SLOTS && offset + |out| <= dir[idx].reserved * BLOCK
    requires var at := dir[idx].start * BLOCK + offset;
             at + |out| <= |data| && forall i | 0 <= i < |out| :: out[i] == data[at + i]
    ensures offset + |out| <= |Extent(dir, data, idx)|
    ensures out == Extent(dir, data, idx)[offset..offset + |out|]
  {
    var b := Extent(dir, data, idx);
    assert offset + |out| <= |b|;
    assert forall i | 0 <= i < |out| :: b[offset + i] == out[i];
  }

  /** A read that returned bytes, without the invariant. */
  lemma ReadCase(s: State, fd: int, offset: U64, size: U64, r: int, out: seq<Byte>, s': State)
    requires Usable(s, fd) && ReadStep(s, fd, offset, size, r, out, s') && r > 0
    ensures offset < s.fds[fd].size && r == Min(size, s.fds[fd].size - offset) == |out|
    ensures var at := Address(s.fds[fd], offset);
            at + r <= |s.data| && forall i | 0 <= i < r :: out[i] == s.data[at + i]
  {
  }

  lemma ReadSlice(s: State, fd: int, offset: U64, size: U64, r: int, out: seq<Byte>, s': State)
    requires Inv(s) && Usable(s, fd) && ReadStep(s, fd, offset, size, r, out, s') && r > 0
    ensures var f := FileAt(s.dir, s.data, s.fds[fd].dirIndex);
            && offset < f.size && r == Min(size, f.size - offset)
            && offset + r <= |f.extent| && out == f.extent[offset..offset + r]
  {
    ReadCase(s, fd, offset, size, r, out, s');
    var idx := s.fds[fd].dirIndex;
    assert s.fds[fd] == OpenFd(s.dir, idx);
    assert ExtentOk(s.dir, idx, |s.data|);
    AddressPlain(s.dir, |s.data|, idx, offset);
    SliceOfExtent(s.dir, s.data, idx, offset, out);
  }

  lemma ReadNothing(s: State, fd: int, offset: U64, size: U64, r: int, out: seq<Byte>, s': State)
    requires Usable(s, fd) && ReadStep(s, fd, offset, size, r, out, s') && r <= 0
    ensures if size == 0 || offset >= s.fds[fd].size then r == 0 else r == -1 && s'.badReads == s.badReads + 1
  {
  }

  lemma ReadKeeps(s: State, fd: int, offset: U64, size: U64, r: int, out: seq<Byte>, s': State)
    requires Inv(s) && ReadStep(s, fd, offset, size, r, out, s')
    ensures Inv(s') && Files(s') == Files(s)
  {
  }

  /** A read returns the clamped slice of the flat file, nothing at its end, or an error. */
  lemma ReadRefines(s: State, fd: int, offset: U64, size: U64, r: int, out: seq<Byte>, s': State)
    requires Inv(s) && Usable(s, fd) && ReadStep(s, fd, offset, size, r, out, s')
    ensures NameOf(s, fd) in Files(s)
    ensures var f := Files(s)[NameOf(s, fd)];
            if r > 0 then
              && offset < f.size && r == Min(size, f.size - offset)
              && offset + r <= |f.extent| && out == f.extent[offset..offset + r]
            else if size == 0 || offset >= f.size then r == 0
            else r == -1 && s'.badReads == s.badReads + 1
  {
    hide Files, ReadStep;
    FileOfSlot(s, s.fds[fd].dirIndex);
    if r > 0 {
      ReadSlice(s, fd, offset, size, r, out, s');
    } else {
      ReadNothing(s, fd, offset, size, r, out, s');
    }
  }

  // ---- writing ----

  /** What a complete write leaves in the data area and the directory. */
  lemma FullWriteEffect(s: State, fd: int, at: U64, src: seq<Byte>, end: U64, s': State)
    requires Usable(s, fd) && s.fds[fd].size == s.dir[s.fds[fd].dirIndex].size && FullWrite(s, fd, at, src, end, s')
    ensures |s'.data| == |s.data| && s'.initialized
    ensures forall p | BLOCK <= p < |s.data| ::
              s'.data[p] == if at <= p < at + |src| then src[p - at] else s.data[p]
    ensures var idx := s.fds[fd].dirIndex;
            s'.dir == s.dir[idx := s.dir[idx].(size := Max(s.dir[idx].size, end))]
  {
    var mid := Splice(s.data, at, src);
    if end > s.fds[fd].size {
      var grown := Grow(s.(data := mid), fd, end);
      var ok :| Flushed(mid, s.badWrites, grown.dir, ok, s'.data, s'.badWrites);
      assert forall p | BLOCK <= p < |mid| :: s'.data[p] == mid[p];
    }
  }

  /** A write inside one extent leaves every other slot's bytes alone. */
  lemma WriteElsewhere(s: State, idx: int, j: int, p: int, at: nat, n: nat)
    requires Inv(s) && s.initialized && Live(s.dir, idx) && Live(s.dir, j) && j != idx
    requires s.dir[idx].start * BLOCK <= at && at + n <= (s.dir[idx].start + s.dir[idx].reserved) * BLOCK
    requires s.dir[j].start * BLOCK <= p < (s.dir[j].start + s.dir[j].reserved) * BLOCK
    ensures BLOCK <= p && !(at <= p < at + n)
  {
    assert Apart(s.dir, idx, j) && ExtentOk(s.dir, j, |s.data|);
  }

  lemma FullWriteRows(s: State, fd: int, offset: U64, src: seq<Byte>, s': State)
    requires Inv(s) && Usable(s, fd) && src != [] && offset + |src| < TWO_TO_64 && Accepts(s.fds[fd], offset, |src|)
    requires FullWrite(s, fd, Address(s.fds[fd], offset), src, offset + |src|, s')
    ensures var idx := s.fds[fd].dirIndex;
            && s'.initialized && Live(s'.dir, idx) && s'.dir[idx].name == s.dir[idx].name
            && forall j | 0 <= j < SLOTS && j != idx :: RowAt(s'.dir, s'.data, j) == RowAt(s.dir, s.data, j)
  {
    hide Inv, Accepts, Address, Extent, FullWrite, RowAt, FileAt, ExtentOk, Live;
    var idx := s.fds[fd].dirIndex;
    var at := Address(s.fds[fd], offset);
    WriteLands(s, fd, offset, |src|);
    FullWriteEffect(s, fd, at, src, offset + |src|, s');
    GrownLive(s.dir, idx, s'.dir[idx].size);
    forall j | 0 <= j < SLOTS && j != idx ensures RowAt(s'.dir, s'.data, j) == RowAt(s.dir, s.data, j) {
      if Live(s.dir, j) {
        forall p | s.dir[j].start * BLOCK <= p < (s.dir[j].start + s.dir[j].reserved) * BLOCK && p < |s.data|
          ensures s'.data[p] == s.data[p]
        {
          WriteElsewhere(s, idx, j, p, at, |src|);
        }
      }
      SameRow(s.dir, s.data, s'.dir, s'.data, j);
    }
  }

  /** Writing inside the extent of one file, on the extent alone. */
  lemma ExtentSplice(dir: Dir, data: seq<Byte>, dir': Dir, data': seq<Byte>, idx: int, offset: nat, src: seq<Byte>)
    requires 0 <= idx < SLOTS && |data'| == |data|
    requires dir'[idx].start == dir[idx].start && dir'[idx].reserved == dir[idx].reserved
    requires offset + |src| <= dir[idx].reserved * BLOCK && dir[idx].start * BLOCK + offset + |src| <= |data|
    requires var at := dir[idx].start * BLOCK + offset;
             forall p | dir[idx].start * BLOCK <= p < |data| ::
               data'[p] == if at <= p < at + |src| then src[p - at] else data[p]
    ensures offset + |src| <= |Extent(dir, data, idx)|
    ensures Extent(dir', data', idx) == Splice(Extent(dir, data, idx), offset, src)
  {
    var lo := dir[idx].start * BLOCK;
    if lo < |data| {
      SpliceSlice(data, data', lo, Min((dir[idx].start + dir[idx].reserved) * BLOCK, |data|), offset, src);
    }
  }

  lemma SpliceSlice(data: seq<Byte>, data': seq<Byte>, lo: nat, hi: nat, offset: nat, src: seq<Byte>)
    requires |data'| == |data| && lo <= hi <= |data| && offset + |src| <= hi - lo
    requires forall p | lo <= p < |data| ::
               data'[p] == if lo + offset <= p < lo + offset + |src| then src[p - (lo + offset)] else data[p]
    ensures data'[lo..hi] == Splice(data[lo..hi], offset, src)
  {
  }

  lemma WriteFits(s: State, fd: int, at: U64, src: seq<Byte>, end: U64, s': State)
    requires 0 <= fd < SLOTS && FullWrite(s, fd, at, src, end, s')
    ensures at + |src| <= |s.data|
  {
  }

  lemma FullWriteFile(s: State, fd: int, offset: U64, src: seq<Byte>, s': State)
    requires Inv(s) && Usable(s, fd) && src != [] && offset + |src| < TWO_TO_64 && Accepts(s.fds[fd], offset, |src|)
    requires FullWrite(s, fd, Address(s.fds[fd], offset), src, offset + |src|, s')
    ensures var idx := s.fds[fd].dirIndex;
            var f := FileAt(s.dir, s.data, idx);
            offset + |src| <= |f.extent| && FileAt(s'.dir, s'.data, idx) == FlatWrite(f, offset, src)
  {
    hide Inv, Accepts, Address, Extent, Live, FullWrite, ExtentOk, Splice;
    var idx := s.fds[fd].dirIndex;
    WriteLands(s, fd, offset, |src|);
    WriteFits(s, fd, Address(s.fds[fd], offset), src, offset + |src|, s');
    FullWriteEffect(s, fd, Address(s.fds[fd], offset), src, offset + |src|, s');
    ExtentSplice(s.dir, s.data, s'.dir, s'.data, idx, offset, src);
  }

  lemma FullWriteRefines(s: State, fd: int, offset: U64, src: seq<Byte>, s': State)
    requires Inv(s) && Inv(s') && Usable(s, fd) && src != [] && offset + |src| < TWO_TO_64
    requires Accepts(s.fds[fd], offset, |src|)
    requires FullWrite(s, fd, Address(s.fds[fd], offset), src, offset + |src|, s')
    ensures NameOf(s, fd) in Files(s)
    ensures var f := Files(s)[NameOf(s, fd)];
            && offset + |src| <= |f.extent|
            && Files(s') == Files(s)[NameOf(s, fd) := FlatWrite(f, offset, src)]
  {
    var idx := s.fds[fd].dirIndex;
    FileOfSlot(s, idx);
    FullWriteRows(s, fd, offset, src, s');
    FullWriteFile(s, fd, offset, src, s');
    OneFileChanges(s, s', idx);
  }

  lemma FullWriteCase(s: State, fd: int, offset: U64, src: seq<Byte>, r: int, s': State)
    requires WriteStep(s, fd, offset, src, r, s') && src != [] && r == |src| && offset + |src| < TWO_TO_64
    ensures Usable(s, fd) && Accepts(s.fds[fd], offset, |src|)
    ensures FullWrite(s, fd, Address(s.fds[fd], offset), src, offset + |src|, s')
  {
    hide TornWrite, FullWrite, Accepts, Address;
  }

  /** A complete write is the splice of a flat byte array, and of one file only. */
  lemma WriteRefines(s: State, fd: int, offset: U64, src: seq<Byte>, r: int, s': State)
    requires Inv(s) && offset + |src| < TWO_TO_64
    requires WriteStep(s, fd, offset, src, r, s') && src != [] && r == |src|
    ensures Inv(s') && Usable(s, fd) && NameOf(s, fd) in Files(s)
    ensures var f := Files(s)[NameOf(s, fd)];
            && offset + |src| <= |f.extent|
            && Files(s') == Files(s)[NameOf(s, fd) := FlatWrite(f, offset, src)]
  {
    FullWriteCase(s, fd, offset, src, r, s');
    WriteKeeps(s, fd, offset, src, r, s');
    FullWriteRefines(s, fd, offset, src, s');
  }
}
