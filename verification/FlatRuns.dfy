/** File contents over whole runs: a byte stays until its file is deleted or the byte is written again. */
module FlatRuns {
  import opened Bytes
  import opened Directory
  import opened Volume
  import opened VolumeSafety
  import opened VolumeSteps
  import opened VolumeRuns
  import opened FlatFiles
  import opened FlatSteps

  /** The file called `n` reaches beyond byte `k`, which is `b`. */
  ghost predicate ByteIs(s: State, n: seq<Byte>, k: int, b: Byte) {
    && Inv(s) && n in Files(s)
    && 0 <= k < Files(s)[n].size && k < |Files(s)[n].extent| && Files(s)[n].extent[k] == b
  }

  /**
   * The call names file `n` and byte `k` as something to change, or is a mount that
   * discards directory changes the device does not have.
   */
  ghost predicate Disturbs(s: State, op: Op, n: seq<Byte>, k: int) {
    match op
    case WriteAt(fd, offset, src) => Usable(s, fd) && NameOf(s, fd) == n && offset <= k < offset + |src|
    case Delete(name) => Clip(name) == n
    case Mount => s.initialized && HasRoom(s.data) && !OnDevice(s)
    case _ => false
  }

  lemma WriteKeepsByte(s: State, fd: int, offset: U64, src: seq<Byte>, r: int, s': State, n: seq<Byte>, k: int, b: Byte)
    requires WriteStep(s, fd, offset, src, r, s') && offset + |src| < TWO_TO_64
    requires ByteIs(s, n, k, b) && !Disturbs(s, WriteAt(fd, offset, src), n, k)
    ensures ByteIs(s', n, k, b)
  {
    hide Inv, Files, WriteStep, TornWrite, FullWrite, Accepts, Address;
    WriteKeeps(s, fd, offset, src, r, s');
    WriteCases(s, fd, offset, src, r, s');
    if s' != s {
      if TornWrite(s, Address(s.fds[fd], offset), src, s') {
        TornWriteRefines(s, fd, offset, src, s');
      } else {
        FullWriteRefines(s, fd, offset, src, s');
      }
    }
  }

  /** Calls that change no file. */
  lemma QuietStep(s: State, op: Op, r: int, s': State)
    requires Inv(s) && Inv(s') && Guard(s, op) && Step(s, op, r, s')
    requires op.Mount? || op.Open? || op.Close? || op.ReadAt? || op.Sync?
    requires op.Mount? && s.initialized ==> OnDevice(s)
    ensures Files(s') == Files(s)
  {
    if op.Mount? {
      MountKeeps(s, r, s');
    } else if op.Sync? && s.initialized {
      FlushKeepsRest(s.data, s.badWrites, s'.dir, r == 0, s'.data, s'.badWrites);
    }
    SameFiles(s, s');
  }

  lemma CreateDeleteKeepByte(s: State, op: Op, r: int, s': State, n: seq<Byte>, k: int, b: Byte)
    requires Inv(s') && Guard(s, op) && Step(s, op, r, s') && (op.Create? || op.Delete?)
    requires ByteIs(s, n, k, b) && !Disturbs(s, op, n, k)
    ensures ByteIs(s', n, k, b)
  {
    hide Inv, Files, DeleteStep, CreatesAt, CreatesIn, CreateGuard;
    if op.Delete? {
      DeleteRefines(s, op.name, r, s');
    } else {
      CreateRefines(s, op.name, op.blocks, r, s');
    }
  }

  lemma StepKeepsByte(s: State, op: Op, r: int, s': State, n: seq<Byte>, k: int, b: Byte)
    requires Guard(s, op) && Step(s, op, r, s')
    requires ByteIs(s, n, k, b) && !Disturbs(s, op, n, k)
    ensures ByteIs(s', n, k, b)
  {
    StepKeepsInv(s, op, r, s');
    match op
    case WriteAt(fd, offset, src) => WriteKeepsByte(s, fd, offset, src, r, s', n, k, b);
    case Create(_, _) => CreateDeleteKeepByte(s, op, r, s', n, k, b);
    case Delete(_) => CreateDeleteKeepByte(s, op, r, s', n, k, b);
    case _ => QuietStep(s, op, r, s');
  }

  /** Over a whole run, through opens, closes, creates, other writes, failed writes and remounts. */
  lemma {:induction false} RunKeepsByte(states: seq<State>, events: seq<Event>, n: seq<Byte>, k: int, b: Byte)
    requires Run(states, events) && ByteIs(states[0], n, k, b)
    requires forall i | 0 <= i < |events| :: !Disturbs(states[i], events[i].op, n, k)
    ensures ByteIs(states[|events|], n, k, b)
    decreases |events|
  {
    if |events| > 0 {
      var m := |events| - 1;
      RunPrefix(states, events, m);
      RunKeepsByte(states[..m + 1], events[..m], n, k, b);
      assert states[..m + 1][m] == states[m];
      StepKeepsByte(states[m], events[m].op, events[m].r, states[m + 1], n, k, b);
    }
  }

  lemma WriteSetsByte(s: State, w: Op, r: int, s': State, k: int)
    requires Inv(s) && w.WriteAt? && Guard(s, w) && Step(s, w, r, s') && r == |w.src|
    requires Usable(s, w.fd) && w.offset <= k < w.offset + |w.src|
    ensures ByteIs(s', NameOf(s, w.fd), k, w.src[k - w.offset])
  {
    WriteRefines(s, w.fd, w.offset, w.src, r, s');
  }

  /** A read that covers the byte returns it, unless its transfer fails. */
  lemma ReadSeesByte(s: State, rd: Op, r: int, s': State, k: int, b: Byte)
    requires rd.ReadAt? && Step(s, rd, r, s') && Usable(s, rd.fd) && ByteIs(s, NameOf(s, rd.fd), k, b)
    requires rd.offset <= k < rd.offset + rd.size && s'.badReads == s.badReads
    ensures k < rd.offset + r && |rd.out| == r && rd.out[k - rd.offset] == b
  {
    hide Inv, Files, ReadStep;
    ReadRefines(s, rd.fd, rd.offset, rd.size, r, rd.out, s');
  }

  /**
   * A read returns what was last written: after a successful write and any run that
   * neither deletes the file nor writes byte `k` again nor discards its directory, a read
   * that covers byte `k` of the same file, through whatever descriptor, reaches the byte
   * and sees what that write put there, unless its own transfer fails.
   */
  lemma ReadsLastWrite(s: State, w: Op, wr: int, states: seq<State>, events: seq<Event>,
                       rd: Op, rr: int, s': State, n: seq<Byte>, k: int)
    requires Inv(s) && Run(states, events)
    requires w.WriteAt? && Guard(s, w) && Step(s, w, wr, states[0]) && wr == |w.src|
    requires Usable(s, w.fd) && NameOf(s, w.fd) == n && w.offset <= k < w.offset + |w.src|
    requires forall i | 0 <= i < |events| :: !Disturbs(states[i], events[i].op, n, k)
    requires var last := states[|events|];
             && rd.ReadAt? && Step(last, rd, rr, s') && s'.badReads == last.badReads
             && Usable(last, rd.fd) && NameOf(last, rd.fd) == n && rd.offset <= k < rd.offset + rd.size
    ensures k < rd.offset + rr && |rd.out| == rr && rd.out[k - rd.offset] == w.src[k - w.offset]
  {
    WriteSetsByte(s, w, wr, states[0], k);
    RunKeepsByte(states, events, n, k, w.src[k - w.offset]);
    ReadSeesByte(states[|events|], rd, rr, s', k, w.src[k - w.offset]);
  }
}
