/**
 * A mounted BMFS volume as a value: what each call of the filesystem does to it,
 * and what well-formed means.  `Filesystem` proves the calls against these steps.
 */
module Volume {
  import opened Bytes
  import opened SectorDisk
  import opened Directory
  import opened Allocator

  const TAG_OFFSET: int := 1024
  const TAG: seq<Byte> := [0x42, 0x4D, 0x46, 0x53]

  type Slot = i: int | 0 <= i < SLOTS

  datatype Fd = Fd(inUse: bool, dirIndex: Slot, start: U64, reserved: U64, size: U64, name: seq<Byte>)

  type Fds = f: seq<Fd> | |f| == SLOTS witness seq(SLOTS, _ => Fd(false, 0, 0, 0, 0, []))

  /** The device contents, its failed transfers, and everything the filesystem keeps in memory. */
  datatype State = State(initialized: bool, dir: Dir, fds: Fds, data: seq<Byte>,
                         writable: bool, badWrites: nat, badReads: nat)

  // ---- the directory on the device ----

  predicate HasRoom(data: seq<Byte>) { DIR_OFFSET + DIR_LEN <= |data| }

  function DirBytes(data: seq<Byte>): (b: seq<Byte>)
    requires HasRoom(data)
    ensures |b| == DIR_LEN
  {
    data[DIR_OFFSET..DIR_OFFSET + DIR_LEN]
  }

  function DiskDir(data: seq<Byte>): (dir: Dir)
    requires HasRoom(data)
  {
    DecodeDir(DirBytes(data))
  }

  predicate HasTag(data: seq<Byte>) {
    HasRoom(data) && data[TAG_OFFSET..TAG_OFFSET + 4] == TAG
  }

  /** What one attempt to write the directory back leaves on the device. */
  ghost predicate Flushed(before: seq<Byte>, bad: nat, dir: Dir, ok: bool, after: seq<Byte>, bad': nat) {
    if ok then HasRoom(before) && after == Splice(before, DIR_OFFSET, EncodeDir(dir)) && bad' == bad
    else Torn(before, DIR_OFFSET, EncodeDir(dir), after) && bad' == bad + 1
  }

  // ---- the calls ----

  function CloseAll(fds: Fds): Fds { seq(SLOTS, i requires 0 <= i < SLOTS => fds[i].(inUse := false)) }

  /** `fs_init` at partition 0. */
  ghost predicate MountStep(s: State, r: int, s': State) {
    && s' == s.(initialized := r == 0, dir := s'.dir, fds := CloseAll(s.fds), badReads := s'.badReads)
    && if r == 0 then HasTag(s.data) && s'.dir == DiskDir(s.data) && s'.badReads == s.badReads
       else r == -1 && s.badReads + (if HasTag(s.data) then 1 else 0) <= s'.badReads <= s.badReads + 1
  }

  function OpenFd(dir: Dir, idx: int): Fd
    requires 0 <= idx < SLOTS
  {
    Fd(true, idx, dir[idx].start, dir[idx].reserved, dir[idx].size, dir[idx].name)
  }

  predicate OpenOn(fds: Fds, f: int, idx: int) { 0 <= f < SLOTS && fds[f].inUse && fds[f].dirIndex == idx }

  /** `fs_open`: the first descriptor open on the file, else the first free one. */
  ghost predicate OpenStep(s: State, name: CString, r: int, s': State) {
    if !s.initialized || Finds(s.dir, name, -1) then r == -1 && s' == s
    else exists idx | 0 <= idx && Finds(s.dir, name, idx) :: OpensAt(s, idx, r, s')
  }

  ghost predicate OpensAt(s: State, idx: int, r: int, s': State)
    requires 0 <= idx < SLOTS
  {
    if exists f :: OpenOn(s.fds, f, idx) then
      OpenOn(s.fds, r, idx) && (forall f | 0 <= f < r :: !OpenOn(s.fds, f, idx)) && s' == s
    else if forall f | 0 <= f < SLOTS :: s.fds[f].inUse then r == -1 && s' == s
    else
      && 0 <= r < SLOTS && !s.fds[r].inUse && (forall f | 0 <= f < r :: s.fds[f].inUse)
      && s' == s.(fds := s.fds[r := OpenFd(s.dir, idx)])
  }

  ghost predicate CloseStep(s: State, fd: int, s': State) {
    s' == if 0 <= fd < SLOTS then s.(fds := s.fds[fd := s.fds[fd].(inUse := false)]) else s
  }

  predicate Usable(s: State, fd: int) { s.initialized && 0 <= fd < SLOTS && s.fds[fd].inUse }

  /** Byte address on the device of byte `offset` of the descriptor's file, as computed in 64 bits. */
  function Address(f: Fd, offset: U64): U64 { (f.start * BLOCK % TWO_TO_64 + offset) % TWO_TO_64 }

  /** `fs_read`; `out` is what the caller's buffer received. */
  ghost predicate ReadStep(s: State, fd: int, offset: U64, size: U64, r: int, out: seq<Byte>, s': State) {
    if !Usable(s, fd) then r == -1 && s' == s
    else if size == 0 || offset >= s.fds[fd].size then r == 0 && s' == s
    else
      var n := Min(size, s.fds[fd].size - offset);
      var at := Address(s.fds[fd], offset);
      || (r == -1 && s' == s.(badReads := s.badReads + 1))
      || (r == n && s' == s && |out| == n && at + n <= |s.data|
          && forall i | 0 <= i < n :: out[i] == s.data[at + i])
  }

  /** The space check of `fs_write`, with its 64-bit sums. */
  predicate Accepts(f: Fd, offset: U64, n: int)
    requires n >= 0
  {
    (offset + n) % TWO_TO_64 <= f.reserved * BLOCK % TWO_TO_64
  }

  function Grow(s: State, fd: int, size: U64): (t: State)
    requires 0 <= fd < SLOTS
  {
    var idx := s.fds[fd].dirIndex;
    s.(fds := s.fds[fd := s.fds[fd].(size := size)], dir := s.dir[idx := s.dir[idx].(size := size)])
  }

  /** `fs_write`. */
  ghost predicate WriteStep(s: State, fd: int, offset: U64, src: seq<Byte>, r: int, s': State) {
    if !Usable(s, fd) || !s.writable then r == -1 && s' == s
    else if src == [] then r == 0 && s' == s
    else if !Accepts(s.fds[fd], offset, |src|) then r == -1 && s' == s
    else
      var at := Address(s.fds[fd], offset);
      || (r == -1 && TornWrite(s, at, src, s'))
      || (r == |src| && FullWrite(s, fd, at, src, (offset + |src|) % TWO_TO_64, s'))
  }

  ghost predicate TornWrite(s: State, at: U64, src: seq<Byte>, s': State) {
    && s' == s.(data := s'.data, badWrites := s'.badWrites, badReads := s'.badReads)
    && PartlyWritten(s.data, at, src, s'.data)
    && s'.badWrites >= s.badWrites && s'.badReads >= s.badReads
    && s'.badWrites + s'.badReads == s.badWrites + s.badReads + 1
  }

  ghost predicate FullWrite(s: State, fd: int, at: U64, src: seq<Byte>, end: U64, s': State)
    requires 0 <= fd < SLOTS
  {
    && at + |src| <= |s.data|
    && var mid := s.(data := Splice(s.data, at, src));
       if end <= s.fds[fd].size then s' == mid
       else
         var grown := Grow(mid, fd, end);
         && s' == grown.(data := s'.data, badWrites := s'.badWrites)
         && exists ok :: Flushed(mid.data, s.badWrites, grown.dir, ok, s'.data, s'.badWrites)
  }

  function NewEntry(name: CString, start: U64, blocks: U64): Entry
    requires |name| < NAME_LEN
  {
    Entry(Padded(name), start, blocks, 0, 0)
  }

  /** An end marker follows `slot`, or nothing can. */
  ghost predicate EndFollows(dir: Dir, slot: nat) {
    slot + 1 >= SLOTS || exists j | slot < j < SLOTS :: EndAt(dir, j)
  }

  /** The directory after `fs_create` has filled `slot`. */
  ghost function CreatedDir(dir: Dir, slot: int, e: Entry): Dir
    requires 0 <= slot < SLOTS
  {
    if EndFollows(dir, slot) then dir[slot := e]
    else dir[slot := e][slot + 1 := dir[slot + 1].(name := dir[slot + 1].name[0 := END])]
  }

  predicate GoodName(name: CString) { 0 < |name| < NAME_LEN && name[0] != DELETED }

  /** The calls of `fs_create` that are refused before anything is changed. */
  ghost predicate CreateRefused(s: State, name: CString) {
    !s.initialized || !s.writable || !GoodName(name) || !Finds(s.dir, name, -1) || FreeSlot(s.dir, -1)
  }

  /** `fs_create`. */
  ghost predicate CreateStep(s: State, name: CString, blocks: U64, r: int, s': State) {
    if CreateRefused(s, name) then r == -1 && s' == s
    else exists slot, start :: CreatesIn(s, name, Max(blocks, 1), slot, start, r, s')
  }

  ghost predicate CreatesIn(s: State, name: CString, n: U64, slot: int, start: U64, r: int, s': State)
    requires GoodName(name) && n >= 1
  {
    && 0 <= slot && FreeSlot(s.dir, slot)
    && start >= 1 && (SaneExtents(s.dir) ==> Allocates(s.dir, n, start))
    && CreatesAt(s, slot, NewEntry(name, start, n), r, s')
  }

  ghost predicate CreatesAt(s: State, slot: int, e: Entry, r: int, s': State)
    requires 0 <= slot < SLOTS
  {
    && (r == 0 || r == -1)
    && s' == s.(dir := CreatedDir(s.dir, slot, e), data := s'.data, badWrites := s'.badWrites)
    && Flushed(s.data, s.badWrites, s'.dir, r == 0, s'.data, s'.badWrites)
  }

  function CloseOn(fds: Fds, idx: int): Fds {
    seq(SLOTS, i requires 0 <= i < SLOTS => if OpenOn(fds, i, idx) then fds[i].(inUse := false) else fds[i])
  }

  function DeletedDir(dir: Dir, idx: int): Dir
    requires 0 <= idx < SLOTS
  {
    dir[idx := dir[idx].(name := dir[idx].name[0 := DELETED])]
  }

  /** `fs_delete`. */
  ghost predicate DeleteStep(s: State, name: CString, r: int, s': State) {
    if !s.initialized || !s.writable || Finds(s.dir, name, -1) then r == -1 && s' == s
    else exists idx | 0 <= idx && Finds(s.dir, name, idx) :: DeletesAt(s, idx, r, s')
  }

  ghost predicate DeletesAt(s: State, idx: int, r: int, s': State)
    requires 0 <= idx < SLOTS
  {
    && (r == 0 || r == -1)
    && s' == s.(dir := DeletedDir(s.dir, idx), fds := CloseOn(s.fds, idx), data := s'.data, badWrites := s'.badWrites)
    && Flushed(s.data, s.badWrites, s'.dir, r == 0, s'.data, s'.badWrites)
  }

  /** `fs_sync`. */
  ghost predicate SyncStep(s: State, r: int, s': State) {
    if !s.initialized then r == -1 && s' == s
    else
      && (r == 0 || r == -1)
      && s' == s.(data := s'.data, badWrites := s'.badWrites)
      && Flushed(s.data, s.badWrites, s.dir, r == 0, s'.data, s'.badWrites)
  }

  // ---- inside a call ----

  /** What the device can hold at some moment of a call is what some outcome of the call leaves. */
  ghost predicate WriteLeaves(s: State, fd: int, offset: U64, src: seq<Byte>, data: seq<Byte>) {
    exists r, t :: WriteStep(s, fd, offset, src, r, t) && t.data == data
  }

  ghost predicate CreateLeaves(s: State, name: CString, blocks: U64, data: seq<Byte>) {
    exists r, t :: CreateStep(s, name, blocks, r, t) && t.data == data
  }

  ghost predicate DeleteLeaves(s: State, name: CString, data: seq<Byte>) {
    exists r, t :: DeleteStep(s, name, r, t) && t.data == data
  }

  ghost predicate SyncLeaves(s: State, data: seq<Byte>) {
    exists r, t :: SyncStep(s, r, t) && t.data == data
  }

  /** A crash while the bytes of a write are moved... */
  lemma PartlyIsWrite(s: State, fd: int, offset: U64, src: seq<Byte>, data: seq<Byte>)
    requires Usable(s, fd) && s.writable && src != [] && Accepts(s.fds[fd], offset, |src|)
    requires PartlyWritten(s.data, Address(s.fds[fd], offset), src, data)
    ensures WriteLeaves(s, fd, offset, src, data)
  {
    hide Accepts, Address, PartlyWritten, FullWrite;
    var t := s.(data := data, badWrites := s.badWrites + 1);
    assert TornWrite(s, Address(s.fds[fd], offset), src, t);
    assert WriteStep(s, fd, offset, src, -1, t);
  }

  /** ... and while the directory with the new size is. */
  lemma TornIsWrite(s: State, fd: int, offset: U64, src: seq<Byte>, data: seq<Byte>)
    requires Usable(s, fd) && s.writable && src != [] && Accepts(s.fds[fd], offset, |src|)
    requires var at, end := Address(s.fds[fd], offset), (offset + |src|) % TWO_TO_64;
             && at + |src| <= |s.data| && end > s.fds[fd].size
             && var mid := s.(data := Splice(s.data, at, src));
                Torn(mid.data, DIR_OFFSET, EncodeDir(Grow(mid, fd, end).dir), data)
    ensures WriteLeaves(s, fd, offset, src, data)
  {
    hide Accepts, Address, Torn, EncodeDir, TornWrite;
    var at, end := Address(s.fds[fd], offset), (offset + |src|) % TWO_TO_64;
    var mid := s.(data := Splice(s.data, at, src));
    var t := Grow(mid, fd, end).(data := data, badWrites := s.badWrites + 1);
    assert Flushed(mid.data, s.badWrites, Grow(mid, fd, end).dir, false, t.data, t.badWrites);
    assert FullWrite(s, fd, at, src, end, t);
    assert WriteStep(s, fd, offset, src, |src|, t);
  }

  lemma TornIsCreate(s: State, name: CString, blocks: U64, slot: int, start: U64, data: seq<Byte>)
    requires !CreateRefused(s, name) && 0 <= slot && FreeSlot(s.dir, slot)
    requires start >= 1 && (SaneExtents(s.dir) ==> Allocates(s.dir, Max(blocks, 1), start))
    requires Torn(s.data, DIR_OFFSET, EncodeDir(CreatedDir(s.dir, slot, NewEntry(name, start, Max(blocks, 1)))), data)
    ensures CreateLeaves(s, name, blocks, data)
  {
    hide Allocates, SaneExtents, EncodeDir, Torn, CreatedDir, NewEntry, Finds;
    var n := Max(blocks, 1);
    var t := s.(dir := CreatedDir(s.dir, slot, NewEntry(name, start, n)), data := data, badWrites := s.badWrites + 1);
    assert CreatesIn(s, name, n, slot, start, -1, t);
    assert CreateStep(s, name, blocks, -1, t);
  }

  lemma TornIsDelete(s: State, name: CString, idx: int, data: seq<Byte>)
    requires s.initialized && s.writable && 0 <= idx && Finds(s.dir, name, idx)
    requires Torn(s.data, DIR_OFFSET, EncodeDir(DeletedDir(s.dir, idx)), data)
    ensures DeleteLeaves(s, name, data)
  {
    hide EncodeDir, Torn, Named, CloseOn;
    var t := s.(dir := DeletedDir(s.dir, idx), fds := CloseOn(s.fds, idx), data := data, badWrites := s.badWrites + 1);
    assert DeletesAt(s, idx, -1, t);
    assert DeleteStep(s, name, -1, t);
  }

  lemma TornIsSync(s: State, data: seq<Byte>)
    requires s.initialized && Torn(s.data, DIR_OFFSET, EncodeDir(s.dir), data)
    ensures SyncLeaves(s, data)
  {
    hide EncodeDir, Torn;
    assert SyncStep(s, -1, s.(data := data, badWrites := s.badWrites + 1));
  }
}
