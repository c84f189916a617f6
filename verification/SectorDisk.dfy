/**
 * The storage driver behind the filesystem: 512-byte sectors, transfers of any
 * number of consecutive sectors, any of which may fail.
 */
module SectorDisk {
  import opened Bytes

  const SECTOR: int := 512

  /** Every byte of `after` is the byte of `before`, or belongs to the write of `src` at `at`. */
  ghost predicate PartlyWritten(before: seq<Byte>, at: nat, src: seq<Byte>, after: seq<Byte>) {
    && |after| == |before|
    && forall i | 0 <= i < |before| ::
         after[i] == before[i] || (at <= i < at + |src| && after[i] == src[i - at])
  }

  /** The sector at byte `lo` is as it was. */
  ghost predicate SectorKept(before: seq<Byte>, lo: int, after: seq<Byte>)
    requires |after| == |before|
  {
    forall i | 0 <= i < |before| && lo <= i < lo + SECTOR :: after[i] == before[i]
  }

  /** The sector at byte `lo` holds its part of the write of `src` at `at`. */
  ghost predicate SectorMoved(at: nat, src: seq<Byte>, lo: int, after: seq<Byte>) {
    forall i | 0 <= i < |after| && lo <= i < lo + SECTOR && at <= i < at + |src| :: after[i] == src[i - at]
  }

  /** What a failed write of whole sectors leaves: each of them old or new, everything else untouched. */
  ghost predicate Torn(before: seq<Byte>, at: nat, src: seq<Byte>, after: seq<Byte>) {
    && PartlyWritten(before, at, src, after)
    && forall q | 0 <= q < |src| / SECTOR ::
         SectorKept(before, at + q * SECTOR, after) || SectorMoved(at, src, at + q * SECTOR, after)
  }

  /** Everything the device held from `from` on is what a write of whole sectors can leave. */
  ghost predicate AllTorn(before: seq<Byte>, at: nat, src: seq<Byte>, history: seq<seq<Byte>>, from: nat) {
    forall h | from <= h < |history| :: Torn(before, at, src, history[h])
  }

  /** The same for a write of any range. */
  ghost predicate AllPartly(before: seq<Byte>, at: nat, src: seq<Byte>, history: seq<seq<Byte>>, from: nat) {
    forall h | from <= h < |history| :: PartlyWritten(before, at, src, history[h])
  }

  /**
   * A transfer that fails, or runs past the end of the device, may have moved any of
   * its sectors; a sector is moved whole or not at all.  A transfer that succeeds
   * reports the number of sectors moved.
   */
  class Disk {
    var data: seq<Byte>
    const writable: bool
    /** How many writes, and how many reads, have failed so far. */
    var badWrites: nat
    var badReads: nat
    /** What the device held after each sector that a write moved. */
    ghost var history: seq<seq<Byte>>

    ghost predicate Valid() reads this { |data| < TWO_TO_64 }

    constructor (image: seq<Byte>, canWrite: bool)
      requires |image| < TWO_TO_64
      ensures Valid() && data == image && writable == canWrite && badWrites == 0 && badReads == 0 && history == []
    {
      data, writable, badWrites, badReads, history := image, canWrite, 0, 0, [];
    }

    method Read(buf: array<Byte>, pos: nat, lba: nat, count: nat) returns (rc: int)
      requires pos + count * SECTOR <= buf.Length
      modifies buf, this`badReads
      ensures rc > 0 ==> rc == count && (lba + count) * SECTOR <= |data|
      ensures rc > 0 ==> buf[..] == Splice(old(buf[..]), pos, data[lba * SECTOR..(lba + count) * SECTOR])
      ensures rc <= 0 ==> forall i | 0 <= i < buf.Length && !(pos <= i < pos + count * SECTOR) :: buf[i] == old(buf[i])
      ensures badReads == old(badReads) + (if rc > 0 then 0 else 1)
      ensures (lba + count) * SECTOR > |data| || count == 0 ==> rc <= 0
    {
      var moved: int := *;
      if 0 <= moved <= count && (lba + moved) * SECTOR <= |data| {
        var from := lba * SECTOR;
        var n := moved * SECTOR;
        assert n <= count * SECTOR;
        forall i | pos <= i < pos + n {
          buf[i] := data[from + (i - pos)];
        }
        rc := if moved == count then count else -1;
        if moved == count {
          assert buf[..] == Splice(old(buf[..]), pos, data[from..from + n]);
        }
      } else {
        rc := -1;
      }
      badReads := badReads + (if rc > 0 then 0 else 1);
    }

    method Write(src: seq<Byte>, lba: nat, count: nat) returns (rc: int)
      requires Valid()
      requires |src| == count * SECTOR
      modifies this`data, this`history, this`badWrites
      ensures Valid() && |data| == |old(data)|
      ensures rc > 0 ==> rc == count && (lba + count) * SECTOR <= |data|
      ensures rc > 0 ==> data == Splice(old(data), lba * SECTOR, src)
      ensures rc <= 0 ==> Torn(old(data), lba * SECTOR, src, data)
      ensures badWrites == old(badWrites) + (if rc > 0 then 0 else 1)
      ensures old(history) <= history && AllTorn(old(data), lba * SECTOR, src, history, |old(history)|)
      ensures data != old(data) ==> |old(history)| < |history| && history[|history| - 1] == data
      ensures (lba + count) * SECTOR > |data| || count == 0 ==> rc <= 0
    {
      hide Mixed, Torn, Splice;
      ghost var was, went := data, [];
      var at := lba * SECTOR;
      MixedNone(was, at, src);
      rc := if count > 0 then count else -1;
      for q := 0 to count
        invariant |data| == |was| && Mixed(was, at, src, went, data) && |went| == q
        invariant (rc == count || rc == -1) && badWrites == old(badWrites)
        invariant old(history) <= history && AllTorn(was, at, src, history, |old(history)|)
        invariant data != was ==> |old(history)| < |history| && history[|history| - 1] == data
        invariant rc > 0 && q > 0 ==> at + q * SECTOR <= |data| && forall k | 0 <= k < q :: went[k]
      {
        var moves: bool := *;
        moves := moves && writable && at + (q + 1) * SECTOR <= |data|;
        MixMore(was, at, src, went, data);
        if moves {
          data := Splice(data, at + q * SECTOR, src[q * SECTOR..(q + 1) * SECTOR]);
          MixedIsTorn(was, at, src, went + [true], data);
          history := history + [data];
        } else {
          rc := -1;
        }
        went := went + [moves];
      }
      MixedIsTorn(was, at, src, went, data);
      var reported: bool := *;
      rc := if reported then rc else -1;
      if rc > 0 {
        MixedAll(was, at, src, went, data);
      }
      badWrites := badWrites + (if rc > 0 then 0 else 1);
    }
  }

  /** The sectors of a write so far, `went` telling which of them moved. */
  ghost predicate Mixed(before: seq<Byte>, at: nat, src: seq<Byte>, went: seq<bool>, after: seq<Byte>) {
    && |after| == |before| && |went| * SECTOR <= |src|
    && forall i | 0 <= i < |before| ::
         after[i] == if at <= i < at + |went| * SECTOR && went[(i - at) / SECTOR] then src[i - at] else before[i]
  }

  lemma MixedNone(before: seq<Byte>, at: nat, src: seq<Byte>)
    ensures Mixed(before, at, src, [], before)
  {
  }

  lemma MixedAll(before: seq<Byte>, at: nat, src: seq<Byte>, went: seq<bool>, after: seq<Byte>)
    requires Mixed(before, at, src, went, after) && |src| == |went| * SECTOR && at + |src| <= |before|
    requires forall k | 0 <= k < |went| :: went[k]
    ensures after == Splice(before, at, src)
  {
  }

  lemma MixMore(before: seq<Byte>, at: nat, src: seq<Byte>, went: seq<bool>, after: seq<Byte>)
    requires Mixed(before, at, src, went, after) && (|went| + 1) * SECTOR <= |src|
    ensures at + (|went| + 1) * SECTOR <= |after| ==>
              var q := |went|;
              Mixed(before, at, src, went + [true], Splice(after, at + q * SECTOR, src[q * SECTOR..(q + 1) * SECTOR]))
    ensures Mixed(before, at, src, went + [false], after)
  {
  }

  lemma MixedIsTorn(before: seq<Byte>, at: nat, src: seq<Byte>, went: seq<bool>, after: seq<Byte>)
    requires Mixed(before, at, src, went, after)
    ensures Torn(before, at, src, after)
  {
    forall q | 0 <= q < |src| / SECTOR
      ensures SectorKept(before, at + q * SECTOR, after) || SectorMoved(at, src, at + q * SECTOR, after)
    {
      if q < |went| && went[q] {
        assert SectorMoved(at, src, at + q * SECTOR, after);
      } else {
        assert SectorKept(before, at + q * SECTOR, after);
      }
    }
  }
}
