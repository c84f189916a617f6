/** Byte ranges of the volume read and written through whole sectors (kernel/fs.c). */
module ByteIO {
  import opened Bytes
  import opened SectorDisk

  /** Largest number of sectors moved by one request. */
  const CHUNK: int := 256

  /** The cast of a sector count to uint32_t, limited to one chunk. */
  function ChunkSectors(count: nat): (n: nat)
    ensures n * SECTOR <= count
  {
    Min((count / SECTOR) % TWO_TO_32, CHUNK)
  }

  /** `after` is `before` with positions `from..to` taken from `data`, `shift` bytes further on. */
  ghost predicate Copied(before: seq<Byte>, from: nat, to: int, data: seq<Byte>, shift: nat, after: seq<Byte>) {
    && |after| == |before|
    && shift + to <= |data|
    && forall i | 0 <= i < |before| :: after[i] == if from <= i < to then data[shift + i] else before[i]
  }

  /** One request into the caller's buffer, from byte `done` of it on. */
  method ReadAligned(disk: Disk, buf: array<Byte>, offset: nat, done: nat, count: nat) returns (moved: int)
    requires (offset + done) % SECTOR == 0 && done + SECTOR <= count <= buf.Length
    modifies buf, disk`badReads
    ensures moved <= count - done
    ensures moved > 0 ==> Copied(old(buf[..]), done, done + moved, disk.data, offset, buf[..])
    ensures moved <= 0 ==> forall i | count <= i < buf.Length :: buf[i] == old(buf[i])
    ensures disk.badReads == old(disk.badReads) + (if moved > 0 then 0 else 1)
  {
    var n := ChunkSectors(count - done);
    var r := disk.Read(buf, done, (offset + done) / SECTOR, n);
    moved := if r <= 0 then -1 else n * SECTOR;
  }

  /** Part of one sector, through the scratch sector. */
  method ReadRagged(disk: Disk, scratch: array<Byte>, buf: array<Byte>, offset: nat, done: nat, count: nat)
    returns (moved: int)
    requires scratch.Length == SECTOR && scratch != buf && done < count <= buf.Length
    modifies buf, scratch, disk`badReads
    ensures moved <= count - done
    ensures moved > 0 ==> Copied(old(buf[..]), done, done + moved, disk.data, offset, buf[..])
    ensures moved <= 0 ==> buf[..] == old(buf[..])
    ensures disk.badReads == old(disk.badReads) + (if moved > 0 then 0 else 1)
  {
    var at := offset + done;
    var inSector, sector := at % SECTOR, at / SECTOR;
    var r := disk.Read(scratch, 0, sector, 1);
    if r <= 0 {
      return -1;
    }
    assert forall i | 0 <= i < SECTOR :: scratch[i] == disk.data[at - inSector + i];
    moved := Min(SECTOR - inSector, count - done);
    forall i | done <= i < done + moved {
      buf[i] := scratch[i - done + inSector];
    }
  }

  /**
   * Reads `count` bytes at `offset` into the front of `buf`: whole sectors go
   * straight to `buf`, the ragged ends through the scratch sector.
   */
  method ReadBytes(disk: Disk, scratch: array<Byte>, buf: array<Byte>, offset: U64, count: nat)
    returns (rc: int)
    requires scratch.Length == SECTOR && scratch != buf && count <= buf.Length
    modifies buf, scratch, disk`badReads
    ensures rc == 0 || rc == -1
    ensures rc == 0 && count > 0 ==> Copied(old(buf[..]), 0, count, disk.data, offset, buf[..])
    ensures forall i | count <= i < buf.Length :: buf[i] == old(buf[i])
    ensures disk.badReads == old(disk.badReads) + (if rc == 0 then 0 else 1)
  {
    var done := 0;
    while done < count
      invariant 0 <= done <= count
      invariant done > 0 ==> offset + done <= |disk.data|
      invariant forall i | 0 <= i < done :: buf[i] == disk.data[offset + i]
      invariant forall i | done <= i < buf.Length :: buf[i] == old(buf[i])
      invariant disk.badReads == old(disk.badReads)
    {
      var moved: int;
      if (offset + done) % SECTOR == 0 && count - done >= SECTOR {
        moved := ReadAligned(disk, buf, offset, done, count);
      } else {
        moved := ReadRagged(disk, scratch, buf, offset, done, count);
      }
      if moved <= 0 {
        return -1;
      }
      done := done + moved;
    }
    rc := 0;
  }

  /** `after` is `before` with the bytes `from..to` of a write of `src` at `offset` applied. */
  ghost predicate Written(before: seq<Byte>, offset: nat, src: seq<Byte>, from: nat, to: int, after: seq<Byte>) {
    && |after| == |before|
    && from <= to <= |src|
    && (from < to ==> offset + to <= |before|)
    && forall i | 0 <= i < |before| ::
         after[i] == if offset + from <= i < offset + to then src[i - offset] else before[i]
  }

  method WriteAligned(disk: Disk, src: seq<Byte>, offset: nat, done: nat) returns (moved: int)
    requires disk.Valid() && (offset + done) % SECTOR == 0 && done + SECTOR <= |src|
    modifies disk`data, disk`history, disk`badWrites
    ensures disk.Valid()
    ensures moved > 0 ==> Written(old(disk.data), offset, src, done, done + moved, disk.data)
    ensures moved <= 0 ==> PartlyWritten(old(disk.data), offset, src, disk.data)
    ensures disk.badWrites == old(disk.badWrites) + (if moved > 0 then 0 else 1)
    ensures old(disk.history) <= disk.history && AllPartly(old(disk.data), offset, src, disk.history, |old(disk.history)|)
  {
    var n := ChunkSectors(|src| - done);
    moved := n * SECTOR;
    ghost var was := disk.data;
    var r := disk.Write(src[done..done + moved], (offset + done) / SECTOR, n);
    forall h | |old(disk.history)| <= h < |disk.history| ensures PartlyWritten(was, offset, src, disk.history[h]) {
      ChunkPartly(was, offset, src, done, done + moved, disk.history[h]);
    }
    moved := if r <= 0 then -1 else moved;
  }

  /** What a chunk of the write leaves is what the whole write can leave. */
  lemma ChunkPartly(data: seq<Byte>, offset: nat, src: seq<Byte>, from: nat, to: nat, after: seq<Byte>)
    requires from <= to <= |src| && PartlyWritten(data, offset + from, src[from..to], after)
    ensures PartlyWritten(data, offset, src, after)
  {
  }

  lemma MergedPartly(data: seq<Byte>, offset: nat, src: seq<Byte>, from: nat, to: nat, base: nat, sent: seq<Byte>, after: seq<Byte>)
    requires from <= to <= |src| && base + |sent| <= |data| && Merged(data, offset, src, from, to, base, sent)
    requires PartlyWritten(data, base, sent, after)
    ensures PartlyWritten(data, offset, src, after)
  {
  }

  /** States left by a write in progress, from the states its next part leaves. */
  lemma PartlyAgain(was: seq<Byte>, offset: nat, src: seq<Byte>, done: nat, now: seq<Byte>,
                    history: seq<seq<Byte>>, from: nat, seen: nat)
    requires Written(was, offset, src, 0, done, now) && seen <= |history|
    requires AllPartly(was, offset, src, history[..seen], from) && AllPartly(now, offset, src, history, seen)
    ensures AllPartly(was, offset, src, history, from)
  {
    forall h | from <= h < |history| ensures PartlyWritten(was, offset, src, history[h]) {
      if h < seen {
        assert history[..seen][h] == history[h];
      }
    }
  }

  /** The sector that holds byte `done` of the write, read into scratch, with the bytes of the write merged in. */
  method FillScratch(disk: Disk, scratch: array<Byte>, src: seq<Byte>, offset: nat, done: nat) returns (moved: int)
    requires scratch.Length == SECTOR && done < |src|
    modifies scratch, disk`badReads
    ensures disk.badReads == old(disk.badReads) + (if moved > 0 then 0 else 1)
    ensures moved > 0 ==> var base := (offset + done) / SECTOR * SECTOR;
                          && done + moved <= |src| && base + SECTOR <= |disk.data|
                          && base <= offset + done && offset + done + moved <= base + SECTOR
                          && Merged(disk.data, offset, src, done, done + moved, base, scratch[..])
  {
    var at := offset + done;
    var inSector, sector := at % SECTOR, at / SECTOR;
    var r := disk.Read(scratch, 0, sector, 1);
    if r <= 0 {
      return -1;
    }
    moved := Min(SECTOR - inSector, |src| - done);
    assert forall i | 0 <= i < SECTOR :: scratch[i] == disk.data[at - inSector + i];
    forall i | inSector <= i < inSector + moved {
      scratch[i] := src[i - inSector + done];
    }
  }

  /** Read-modify-write of the one sector that holds byte `done` of the write. */
  method WriteRagged(disk: Disk, scratch: array<Byte>, src: seq<Byte>, offset: nat, done: nat)
    returns (moved: int)
    requires disk.Valid() && scratch.Length == SECTOR && done < |src|
    modifies scratch, disk`data, disk`history, disk`badReads, disk`badWrites
    ensures disk.Valid()
    ensures moved > 0 ==> Written(old(disk.data), offset, src, done, done + moved, disk.data)
    ensures moved <= 0 ==> PartlyWritten(old(disk.data), offset, src, disk.data)
    ensures disk.badWrites >= old(disk.badWrites) && disk.badReads >= old(disk.badReads)
    ensures disk.badWrites + disk.badReads == old(disk.badWrites + disk.badReads) + (if moved > 0 then 0 else 1)
    ensures old(disk.history) <= disk.history && AllPartly(old(disk.data), offset, src, disk.history, |old(disk.history)|)
  {
    hide Merged, Written, PartlyWritten, SectorKept, SectorMoved, Splice;
    moved := FillScratch(disk, scratch, src, offset, done);
    ghost var was := disk.data;
    if moved <= 0 {
      NotWritten(was, offset, src);
      return -1;
    }
    var sector := (offset + done) / SECTOR;
    ghost var sent, to := scratch[..], done + moved;
    var r := disk.Write(scratch[..], sector, 1);
    forall h | |old(disk.history)| <= h < |disk.history| ensures PartlyWritten(was, offset, src, disk.history[h]) {
      MergedPartly(was, offset, src, done, to, sector * SECTOR, sent, disk.history[h]);
    }
    if r <= 0 {
      MergedPartly(was, offset, src, done, to, sector * SECTOR, sent, disk.data);
      return -1;
    }
    MergedWritten(was, offset, src, done, to, sector * SECTOR, sent);
  }

  lemma NotWritten(data: seq<Byte>, offset: nat, src: seq<Byte>)
    ensures PartlyWritten(data, offset, src, data)
  {
  }

  lemma MergedWritten(data: seq<Byte>, offset: nat, src: seq<Byte>, from: nat, to: nat, base: nat, sent: seq<Byte>)
    requires from <= to <= |src| && base + |sent| <= |data| && Merged(data, offset, src, from, to, base, sent)
    requires base <= offset + from && offset + to <= base + |sent|
    ensures Written(data, offset, src, from, to, Splice(data, base, sent))
  {
  }

  /** `sent` is the sector at `base` with the bytes `from..to` of the write merged in. */
  ghost predicate Merged(data: seq<Byte>, offset: nat, src: seq<Byte>, from: nat, to: nat, base: nat, sent: seq<Byte>)
    requires from <= to <= |src| && base + |sent| <= |data|
  {
    forall i | 0 <= i < |sent| ::
      sent[i] == if offset + from <= base + i < offset + to then src[base + i - offset] else data[base + i]
  }

  /**
   * Writes `src` at `offset`.  A ragged end is merged into the sector it shares
   * with its neighbours; whatever fails, no byte outside the range changes and
   * every byte inside is the old or the new one.
   */
  method WriteBytes(disk: Disk, scratch: array<Byte>, src: seq<Byte>, offset: U64)
    returns (rc: int)
    requires disk.Valid() && scratch.Length == SECTOR
    modifies scratch, disk`data, disk`history, disk`badReads, disk`badWrites
    ensures disk.Valid()
    ensures rc == 0 || rc == -1
    ensures rc == 0 ==> Written(old(disk.data), offset, src, 0, |src|, disk.data)
    ensures rc == -1 ==> PartlyWritten(old(disk.data), offset, src, disk.data)
    ensures disk.badWrites >= old(disk.badWrites) && disk.badReads >= old(disk.badReads)
    ensures disk.badWrites + disk.badReads == old(disk.badWrites + disk.badReads) + (if rc == 0 then 0 else 1)
    ensures old(disk.history) <= disk.history && AllPartly(old(disk.data), offset, src, disk.history, |old(disk.history)|)
  {
    var done := 0;
    while done < |src|
      invariant disk.Valid()
      invariant Written(old(disk.data), offset, src, 0, done, disk.data)
      invariant disk.badWrites == old(disk.badWrites) && disk.badReads == old(disk.badReads)
      invariant old(disk.history) <= disk.history && AllPartly(old(disk.data), offset, src, disk.history, |old(disk.history)|)
    {
      ghost var now, seen := disk.data, disk.history;
      var moved: int;
      if (offset + done) % SECTOR == 0 && |src| - done >= SECTOR {
        moved := WriteAligned(disk, src, offset, done);
      } else {
        moved := WriteRagged(disk, scratch, src, offset, done);
      }
      PartlyAgain(old(disk.data), offset, src, done, now, disk.history, |old(disk.history)|, |seen|);
      if moved <= 0 {
        return -1;
      }
      done := done + moved;
    }
    rc := 0;
  }
}
