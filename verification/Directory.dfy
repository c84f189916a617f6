/**
 * The 64-slot BMFS directory (kernel/fs.c, kernel/fs.h): entries, their on-disk
 * form, name lookup, and which slots hold a file.
 */
module Directory {
  import opened Bytes

  const SLOTS: int := 64
  const NAME_LEN: int := 32
  const ENTRY_LEN: int := 64
  const DIR_OFFSET: int := 4096
  const DIR_LEN: int := 4096
  const BLOCK: int := 0x20_0000
  /** First block whose end no longer has a 64-bit byte address. */
  const MAX_BLOCK: int := 0x800_0000_0000

  const END: Byte := 0
  const DELETED: Byte := 1

  datatype RawEntry = Entry(name: seq<Byte>, start: U64, reserved: U64, size: U64, unused: U64)

  type Entry = e: RawEntry | |e.name| == NAME_LEN witness Entry(seq(NAME_LEN, _ => 0), 0, 0, 0, 0)

  type Dir = d: seq<Entry> | |d| == SLOTS witness seq(SLOTS, _ => Entry(seq(NAME_LEN, _ => 0), 0, 0, 0, 0))

  // ---- names ----

  /** The bytes of a fixed-size name field up to its first NUL, or all of them. */
  function Text(field: seq<Byte>): (s: CString)
    ensures |s| <= |field| && s == field[..|s|]
    ensures |s| < |field| ==> field[|s|] == 0
  {
    if field == [] || field[0] == 0 then [] else
      var rest := Text(field[1..]);
      assert [field[0]] + rest == field[..1 + |rest|];
      [field[0]] + rest
  }

  /** What a field can hold of a name: lookups compare 32 bytes at most. */
  function Clip(name: CString): CString {
    name[..Min(|name|, NAME_LEN)]
  }

  /** The name with NUL padding, as `fs_create` stores it. */
  function Padded(name: CString): (field: seq<Byte>)
    requires |name| <= NAME_LEN
    ensures |field| == NAME_LEN && name <= field
    ensures forall i | |name| <= i < NAME_LEN :: field[i] == 0
  {
    name + seq(NAME_LEN - |name|, _ => 0)
  }

  lemma {:induction false} TextUnique(field: seq<Byte>, s: CString)
    requires s <= field
    requires |s| == |field| || field[|s|] == 0
    ensures Text(field) == s
  {
    if s != [] {
      assert s[0] in s;
      TextUnique(field[1..], s[1..]);
    }
  }

  lemma TextOfPadded(name: CString)
    requires |name| <= NAME_LEN
    ensures Text(Padded(name)) == name
  {
    TextUnique(Padded(name), name);
  }

  /** Compares a C string with a name field, byte by byte. */
  method NameMatch(name: CString, field: seq<Byte>) returns (same: bool)
    requires |field| == NAME_LEN
    ensures same <==> Text(field) == Clip(name)
    ensures same <==> if |name| < 32 then name <= field && field[|name|] == 0 else field == name[..32]
  {
    var text := Text(field);
    var i := 0;
    while i < NAME_LEN
      invariant 0 <= i <= NAME_LEN
      invariant i <= |name| && name[..i] == field[..i]
    {
      var c := if i < |name| then name[i] else 0;
      if c != field[i] {
        assert text == Clip(name) ==> i >= |text|;
        return false;
      }
      if c == 0 {
        TextUnique(field, name);
        assert i == |name| && name[..i] == name;
        return true;
      }
      i := i + 1;
    }
    TextUnique(field, name[..NAME_LEN]);
    assert field[..NAME_LEN] == field;
    return true;
  }

  // ---- slots ----

  predicate EndAt(dir: Dir, i: int) requires 0 <= i < SLOTS { dir[i].name[0] == END }

  /** Slot `i` holds a file: it is neither free nor behind the end marker. */
  ghost predicate Live(dir: Dir, i: int) {
    && 0 <= i < SLOTS
    && dir[i].name[0] != DELETED
    && forall j | 0 <= j <= i :: !EndAt(dir, j)
  }

  ghost predicate Named(dir: Dir, i: int, name: CString)
    requires 0 <= i < SLOTS
  {
    Live(dir, i) && Text(dir[i].name) == Clip(name)
  }

  /** `i` is the lowest slot holding a file called `name`; -1 if there is none. */
  ghost predicate Finds(dir: Dir, name: CString, i: int) {
    && -1 <= i < SLOTS
    && (i >= 0 ==> Named(dir, i, name))
    && forall j | 0 <= j < (if i < 0 then SLOTS else i) :: !Named(dir, j, name)
  }

  /** `i` is the slot `fs_create` takes: the first deleted one before the end, else the end itself. */
  ghost predicate FreeSlot(dir: Dir, i: int) {
    && -1 <= i < SLOTS
    && (i >= 0 ==> dir[i].name[0] == DELETED || dir[i].name[0] == END)
    && forall j | 0 <= j < (if i < 0 then SLOTS else i) ::
         dir[j].name[0] != DELETED && !EndAt(dir, j)
  }

  method DirFind(dir: array<Entry>, name: CString) returns (idx: int)
    requires dir.Length == SLOTS
    ensures Finds(dir[..], name, idx)
  {
    ghost var d: Dir := dir[..];
    for i := 0 to SLOTS
      invariant forall j | 0 <= j < i :: !EndAt(d, j) && !Named(d, j, name)
    {
      if dir[i].name[0] == END {
        assert EndAt(d, i);
        return -1;
      }
      if dir[i].name[0] != DELETED {
        var same := NameMatch(name, dir[i].name);
        if same {
          return i;
        }
      }
    }
    return -1;
  }

  method DirFindFree(dir: array<Entry>) returns (slot: int)
    requires dir.Length == SLOTS
    ensures FreeSlot(dir[..], slot)
  {
    for i := 0 to SLOTS
      invariant forall j | 0 <= j < i :: dir[j].name[0] != DELETED && dir[j].name[0] != END
    {
      if dir[i].name[0] == DELETED {
        return i;
      }
      if dir[i].name[0] == END {
        return i;
      }
    }
    return -1;
  }

  // ---- on-disk form ----

  function EncodeEntry(e: Entry): (b: seq<Byte>)
    ensures |b| == ENTRY_LEN
  {
    e.name + ToLittleEndian(e.start, 8) + ToLittleEndian(e.reserved, 8)
    + ToLittleEndian(e.size, 8) + ToLittleEndian(e.unused, 8)
  }

  function DecodeWord(b: seq<Byte>): (v: U64)
    requires |b| == 8
  {
    ToFromLittleEndian(b);
    EightByteRange();
    FromLittleEndian(b)
  }

  function DecodeEntry(b: seq<Byte>): (e: Entry)
    requires |b| == ENTRY_LEN
  {
    Entry(b[..32], DecodeWord(b[32..40]), DecodeWord(b[40..48]), DecodeWord(b[48..56]), DecodeWord(b[56..]))
  }

  function EncodeDir(dir: seq<Entry>): (b: seq<Byte>)
    ensures |b| == ENTRY_LEN * |dir|
  {
    if dir == [] then [] else EncodeEntry(dir[0]) + EncodeDir(dir[1..])
  }

  function DecodeDir(b: seq<Byte>): (dir: seq<Entry>)
    requires |b| % ENTRY_LEN == 0
    ensures |dir| * ENTRY_LEN == |b|
  {
    if b == [] then [] else [DecodeEntry(b[..ENTRY_LEN])] + DecodeDir(b[ENTRY_LEN..])
  }

  lemma DecodeEncodeWord(v: U64)
    ensures DecodeWord(ToLittleEndian(v, 8)) == v
  {
    EightByteRange();
    FromToLittleEndian(v, 8);
  }

  lemma DecodeEncodeEntry(e: Entry)
    ensures DecodeEntry(EncodeEntry(e)) == e
  {
    var b := EncodeEntry(e);
    assert b[..32] == e.name;
    assert b[32..40] == ToLittleEndian(e.start, 8);
    assert b[40..48] == ToLittleEndian(e.reserved, 8);
    assert b[48..56] == ToLittleEndian(e.size, 8);
    assert b[56..] == ToLittleEndian(e.unused, 8);
    DecodeEncodeWord(e.start);
    DecodeEncodeWord(e.reserved);
    DecodeEncodeWord(e.size);
    DecodeEncodeWord(e.unused);
  }

  /** Reading back what was written gives the same directory... */
  lemma {:induction false} DecodeEncodeDir(dir: seq<Entry>)
    ensures DecodeDir(EncodeDir(dir)) == dir
  {
    if dir != [] {
      var b := EncodeDir(dir);
      assert b[..ENTRY_LEN] == EncodeEntry(dir[0]);
      assert b[ENTRY_LEN..] == EncodeDir(dir[1..]);
      DecodeEncodeEntry(dir[0]);
      DecodeEncodeDir(dir[1..]);
    }
  }

  lemma EncodeDecodeEntry(b: seq<Byte>)
    requires |b| == ENTRY_LEN
    ensures EncodeEntry(DecodeEntry(b)) == b
  {
    ToFromLittleEndian(b[32..40]);
    ToFromLittleEndian(b[40..48]);
    ToFromLittleEndian(b[48..56]);
    ToFromLittleEndian(b[56..]);
    assert b == b[..32] + b[32..40] + b[40..48] + b[48..56] + b[56..];
  }

  /** ... and every 4096 bytes are the on-disk form of exactly one directory. */
  lemma {:induction false} EncodeDecodeDir(b: seq<Byte>)
    requires |b| % ENTRY_LEN == 0
    ensures EncodeDir(DecodeDir(b)) == b
  {
    if b != [] {
      EncodeDecodeEntry(b[..ENTRY_LEN]);
      EncodeDecodeDir(b[ENTRY_LEN..]);
      var d := DecodeDir(b);
      assert d[1..] == DecodeDir(b[ENTRY_LEN..]);
      assert b == b[..ENTRY_LEN] + b[ENTRY_LEN..];
    }
  }

  /** The eight bytes at `at` are the number `v`, lowest byte first. */
  ghost predicate Spells(b: seq<Byte>, at: nat, v: int)
    requires at + 8 <= |b|
  {
    v == b[at] as int + 0x100 * (b[at + 1] as int) + 0x1_0000 * (b[at + 2] as int)
         + 0x100_0000 * (b[at + 3] as int) + 0x1_0000_0000 * (b[at + 4] as int)
         + 0x100_0000_0000 * (b[at + 5] as int) + 0x1_0000_0000_0000 * (b[at + 6] as int)
         + 0x100_0000_0000_0000 * (b[at + 7] as int)
  }

  /** The entry `e` as it lies at `at`: name, starting block, reserved blocks, size, unused word. */
  ghost predicate EntryAt(b: seq<Byte>, at: nat, e: Entry)
    requires at + 64 <= |b|
  {
    && e.name == b[at..at + 32]
    && Spells(b, at + 32, e.start) && Spells(b, at + 40, e.reserved)
    && Spells(b, at + 48, e.size) && Spells(b, at + 56, e.unused)
  }

  lemma WordSpells(b: seq<Byte>, at: nat)
    requires at + 8 <= |b|
    ensures Spells(b, at, DecodeWord(b[at..at + 8]))
  {
    hide FromLittleEndian;
    var w := b[at..at + 8];
    FourLow(w);
    FourLow(w[4..]);
    assert w[4..][4..] == [];
    NoBytes();
  }

  lemma DecodedEntry(b: seq<Byte>, at: nat)
    requires at + 64 <= |b|
    ensures EntryAt(b, at, DecodeEntry(b[at..at + 64]))
  {
    hide Spells, DecodeWord;
    var c := b[at..at + 64];
    assert c[56..] == c[56..64];
    SliceOfSlice(b, at, 64, 0, 32);
    SliceOfSlice(b, at, 64, 32, 40);
    SliceOfSlice(b, at, 64, 40, 48);
    SliceOfSlice(b, at, 64, 48, 56);
    SliceOfSlice(b, at, 64, 56, 64);
    WordSpells(b, at + 32);
    WordSpells(b, at + 40);
    WordSpells(b, at + 48);
    WordSpells(b, at + 56);
  }

  /** Where everything of slot `i` lies in the directory region. */
  lemma {:induction false} DecodedSlot(b: seq<Byte>, i: nat)
    requires |b| % 64 == 0 && 64 * (i + 1) <= |b|
    ensures i < |DecodeDir(b)| && EntryAt(b, 64 * i, DecodeDir(b)[i])
    decreases i
  {
    hide DecodeEntry, Spells;
    if i > 0 {
      var rest := b[64..];
      assert rest == b[64..|b|];
      DecodedSlot(rest, i - 1);
      EntryFurther(b, 64, |b|, 64 * (i - 1), DecodeDir(rest)[i - 1]);
    } else {
      DecodedEntry(b, 0);
    }
  }

  /** What lies in a part of `b` lies in `b`. */
  lemma EntryFurther(b: seq<Byte>, lo: nat, hi: nat, at: nat, e: Entry)
    requires lo <= hi <= |b| && lo + at + 64 <= hi && EntryAt(b[lo..hi], at, e)
    ensures EntryAt(b, lo + at, e)
  {
    SliceOfSlice(b, lo, hi - lo, at, at + 32);
  }

  lemma DecodedName(b: seq<Byte>, i: nat)
    requires |b| % ENTRY_LEN == 0 && ENTRY_LEN * (i + 1) <= |b|
    ensures i < |DecodeDir(b)| && DecodeDir(b)[i].name == b[ENTRY_LEN * i..ENTRY_LEN * i + NAME_LEN]
  {
    hide DecodeDir, Spells;
    DecodedSlot(b, i);
  }

  /** The same of a directory as it is written. */
  lemma EncodedSlot(dir: seq<Entry>, i: nat)
    requires i < |dir|
    ensures EntryAt(EncodeDir(dir), 64 * i, dir[i])
  {
    hide EncodeDir, DecodeDir, EntryAt;
    DecodeEncodeDir(dir);
    DecodedSlot(EncodeDir(dir), i);
  }
}
