/** Runs of filesystem calls on one volume. */
module VolumeRuns {
  import opened Bytes
  import opened Directory
  import opened Volume
  import opened VolumeSafety
  import opened VolumeSteps

  /** The calls; a read carries the bytes the caller received. */
  datatype Op =
    | Mount
    | Open(name: CString)
    | Close(fd: int)
    | ReadAt(fd: int, offset: U64, size: U64, out: seq<Byte>)
    | WriteAt(fd: int, offset: U64, src: seq<Byte>)
    | Create(name: CString, blocks: U64)
    | Delete(name: CString)
    | Sync

  ghost predicate Step(s: State, op: Op, r: int, s': State) {
    match op
    case Mount => MountStep(s, r, s')
    case Open(name) => OpenStep(s, name, r, s')
    case Close(fd) => CloseStep(s, fd, s')
    case ReadAt(fd, offset, size, out) => ReadStep(s, fd, offset, size, r, out, s')
    case WriteAt(fd, offset, src) => WriteStep(s, fd, offset, src, r, s')
    case Create(name, blocks) => CreateStep(s, name, blocks, r, s')
    case Delete(name) => DeleteStep(s, name, r, s')
    case Sync => SyncStep(s, r, s')
  }

  /**
   * What a caller must check: the directory on the device is well formed when it is
   * mounted; no written range wraps around 2^64; a create that is not refused takes a
   * slot with an end marker behind it and finds an addressable run.
   */
  ghost predicate Guard(s: State, op: Op) {
    match op
    case Mount => Mountable(s.data)
    case WriteAt(fd, offset, src) => offset + |src| < TWO_TO_64
    case Create(name, blocks) => CreateGuard(s, name, blocks)
    case _ => true
  }

  lemma StepKeepsInv(s: State, op: Op, r: int, s': State)
    requires Inv(s) && Guard(s, op) && Step(s, op, r, s')
    ensures Inv(s')
  {
    match op
    case Mount => MountKeeps(s, r, s');
    case Open(name) => OpenKeeps(s, name, r, s');
    case Close(fd) => CloseKeeps(s, fd, s');
    case ReadAt(fd, offset, size, out) =>
    case WriteAt(fd, offset, src) => WriteKeeps(s, fd, offset, src, r, s');
    case Create(name, blocks) => CreateKeeps(s, name, blocks, r, s');
    case Delete(name) => DeleteKeeps(s, name, r, s');
    case Sync => SyncKeeps(s, r, s');
  }

  datatype Event = Event(op: Op, r: int)

  ghost predicate Run(states: seq<State>, events: seq<Event>) {
    && |states| == |events| + 1
    && forall i | 0 <= i < |events| ::
         Guard(states[i], events[i].op) && Step(states[i], events[i].op, events[i].r, states[i + 1])
  }

  lemma RunPrefix(states: seq<State>, events: seq<Event>, n: nat)
    requires Run(states, events) && n <= |events|
    ensures Run(states[..n + 1], events[..n])
  {
  }

  /**
   * Every state of every guarded run from a good volume: files have distinct names
   * and disjoint extents outside block 0, sizes fit, descriptors mirror live entries.
   */
  lemma {:induction false} RunKeepsInv(states: seq<State>, events: seq<Event>)
    requires Run(states, events) && Inv(states[0])
    ensures forall i | 0 <= i < |states| :: Inv(states[i])
    decreases |events|
  {
    if |events| > 0 {
      var n := |events| - 1;
      RunPrefix(states, events, n);
      RunKeepsInv(states[..n + 1], events[..n]);
      assert Inv(states[..n + 1][n]);
      StepKeepsInv(states[n], events[n].op, events[n].r, states[n + 1]);
      forall i | 0 <= i < |states| ensures Inv(states[i]) {
        if i <= n {
          assert Inv(states[..n + 1][i]);
        }
      }
    }
  }

  // ---- opening never runs out of descriptors ----

  /** Distinct numbers below `m` are at most `m` many. */
  lemma {:induction false} AtMost(xs: seq<int>, m: nat)
    requires forall i | 0 <= i < |xs| :: 0 <= xs[i] < m
    requires forall i, j | 0 <= i < j < |xs| :: xs[i] != xs[j]
    ensures |xs| <= m
  {
    if xs == [] {
    } else if k :| 0 <= k < |xs| && xs[k] == m - 1 {
      var rest := xs[..k] + xs[k + 1..];
      AtMost(rest, m - 1);
    } else {
      assert 0 <= xs[0] < m;
      AtMost(xs, m - 1);
    }
  }

  /** When every descriptor is in use, each slot has one. */
  lemma AllInUse(dir: Dir, fds: Fds, idx: int)
    requires FdsMirror(dir, fds) && 0 <= idx < SLOTS
    requires forall f | 0 <= f < SLOTS :: fds[f].inUse
    ensures exists f :: OpenOn(fds, f, idx)
  {
    var xs := seq(SLOTS, f requires 0 <= f < SLOTS => fds[f].dirIndex);
    if idx !in xs {
      AtMost(xs + [idx], SLOTS);
    }
    var f :| 0 <= f < SLOTS && xs[f] == idx;
    assert OpenOn(fds, f, idx);
  }

  lemma OpenLands(s: State, name: CString, idx: int, r: int, s': State)
    requires s.initialized && 0 <= idx && Finds(s.dir, name, idx) && OpenStep(s, name, r, s')
    ensures OpensAt(s, idx, r, s')
  {
    hide OpensAt, Named;
    FindsOnce(s.dir, name, idx, -1);
    var idx' :| 0 <= idx' && Finds(s.dir, name, idx') && OpensAt(s, idx', r, s');
    FindsOnce(s.dir, name, idx, idx');
  }

  lemma FindsOnce(dir: Dir, name: CString, i: int, j: int)
    requires 0 <= i && Finds(dir, name, i)
    ensures Finds(dir, name, j) ==> j == i
  {
    hide Named;
  }

  /** On a good volume, opening a file that exists yields a descriptor for it. */
  lemma OpenSucceeds(s: State, name: CString, idx: int, r: int, s': State)
    requires Inv(s) && s.initialized && 0 <= idx && Finds(s.dir, name, idx) && OpenStep(s, name, r, s')
    ensures OpenOn(s'.fds, r, idx) && s'.fds[r] == OpenFd(s.dir, idx)
  {
    OpenLands(s, name, idx, r, s');
    if forall f | 0 <= f < SLOTS :: s.fds[f].inUse {
      AllInUse(s.dir, s.fds, idx);
    }
  }
}
