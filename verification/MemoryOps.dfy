/**
 * memcpy, memset and memmove (lib/string.c) on one byte-addressed memory: bytes up
 * to an 8-byte boundary of the destination, then 64-bit words, then the rest.
 */
module MemoryOps {

  // ---- 64-bit words in memory, little endian ----

  function Join(b: seq<bv8>): bv64
    requires |b| == 8
  {
    (b[0] as bv64) | ((b[1] as bv64) << 8) | ((b[2] as bv64) << 16) | ((b[3] as bv64) << 24)
    | ((b[4] as bv64) << 32) | ((b[5] as bv64) << 40) | ((b[6] as bv64) << 48) | ((b[7] as bv64) << 56)
  }

  function Low(w: bv64): bv8 { (w & 0xFF) as bv8 }

  function Split(w: bv64): (b: seq<bv8>)
    ensures |b| == 8
  {
    [Low(w), Low(w >> 8), Low(w >> 16), Low(w >> 24), Low(w >> 32), Low(w >> 40), Low(w >> 48), Low(w >> 56)]
  }

  lemma JoinSplits(b0: bv8, b1: bv8, b2: bv8, b3: bv8, b4: bv8, b5: bv8, b6: bv8, b7: bv8)
    ensures Split(Join([b0, b1, b2, b3, b4, b5, b6, b7])) == [b0, b1, b2, b3, b4, b5, b6, b7]
  {
  }

  /** A word loaded and stored is eight bytes copied. */
  lemma SplitJoin(b: seq<bv8>)
    requires |b| == 8
    ensures Split(Join(b)) == b
  {
    assert b == [b[0], b[1], b[2], b[3], b[4], b[5], b[6], b[7]];
    JoinSplits(b[0], b[1], b[2], b[3], b[4], b[5], b[6], b[7]);
  }

  function Wide(v: bv8): bv64 {
    var w1 := v as bv64;
    var w2 := w1 | (w1 << 8);
    var w4 := w2 | (w2 << 16);
    w4 | (w4 << 32)
  }

  /** The widened fill value holds the byte eight times. */
  lemma WideSplits(v: bv8)
    ensures Split(Wide(v)) == [v, v, v, v, v, v, v, v]
  {
  }

  // ---- what the operations mean ----

  /** Memory after copying `n` bytes from `s` to `d`, as if through a temporary. */
  function Moved(mem: seq<bv8>, d: nat, s: nat, n: nat): (r: seq<bv8>)
    requires d + n <= |mem| && s + n <= |mem|
    ensures |r| == |mem|
    ensures forall k {:trigger r[k]} | 0 <= k < |mem| ::
              r[k] == if d <= k < d + n then mem[s + (k - d)] else mem[k]
  {
    mem[..d] + mem[s..s + n] + mem[d + n..]
  }

  function Filled(mem: seq<bv8>, d: nat, v: bv8, n: nat): (r: seq<bv8>)
    requires d + n <= |mem|
    ensures |r| == |mem|
    ensures forall k | 0 <= k < |mem| :: r[k] == if d <= k < d + n then v else mem[k]
  {
    mem[..d] + seq(n, _ => v) + mem[d + n..]
  }

  /** Bytes `lo..hi` of the copy are done, the others are still as they were. */
  ghost predicate Copied(mem: array<bv8>, was: seq<bv8>, d: nat, s: nat, lo: nat, hi: nat)
    requires lo <= hi && d + hi <= mem.Length == |was| && s + hi <= |was|
    reads mem
  {
    forall k {:trigger mem[k]} | 0 <= k < mem.Length ::
      mem[k] == if d + lo <= k < d + hi then was[s + (k - d)] else was[k]
  }

  method LoadWord(mem: array<bv8>, a: nat) returns (w: bv64)
    requires a + 8 <= mem.Length
    ensures w == Join(mem[a..a + 8])
  {
    w := Join(mem[a..a + 8]);
  }

  /** Words are stored at multiples of 8 only. */
  method StoreWord(mem: array<bv8>, a: nat, w: bv64)
    requires a + 8 <= mem.Length && a % 8 == 0
    modifies mem
    ensures forall k | 0 <= k < mem.Length :: mem[k] == if a <= k < a + 8 then Split(w)[k - a] else old(mem[k])
  {
    var b := Split(w);
    forall k | a <= k < a + 8 {
      mem[k] := b[k - a];
    }
  }

  /** One word of a copy: all eight bytes are read before any is written. */
  method CopyWord(mem: array<bv8>, d: nat, s: nat)
    requires d + 8 <= mem.Length && s + 8 <= mem.Length && d % 8 == 0
    modifies mem
    ensures forall k {:trigger mem[k]} | 0 <= k < mem.Length ::
              mem[k] == if d <= k < d + 8 then old(mem[s + (k - d)]) else old(mem[k])
  {
    var w := LoadWord(mem, s);
    SplitJoin(mem[s..s + 8]);
    StoreWord(mem, d, w);
  }

  /** Copying in ascending order meets no byte it has already overwritten. */
  predicate UpIsSafe(d: nat, s: nat, n: nat) { d <= s || s + n <= d }

  /** One byte at a time from byte `from` on, to the end or to an aligned destination. */
  method BytesUp(mem: array<bv8>, d: nat, s: nat, from: nat, n: nat, toAligned: bool, ghost was: seq<bv8>)
    returns (i: nat)
    requires from <= n && d + n <= mem.Length == |was| && s + n <= mem.Length
    requires Copied(mem, was, d, s, 0, from) && UpIsSafe(d, s, n)
    modifies mem
    ensures from <= i <= n && (i == n || (toAligned && (d + i) % 8 == 0))
    ensures Copied(mem, was, d, s, 0, i)
  {
    i := from;
    while i < n && (!toAligned || (d + i) % 8 != 0)
      invariant from <= i <= n
      invariant Copied(mem, was, d, s, 0, i)
    {
      mem[d + i] := mem[s + i];
      i := i + 1;
    }
  }

  method WordsUp(mem: array<bv8>, d: nat, s: nat, from: nat, n: nat, ghost was: seq<bv8>)
    returns (i: nat)
    requires from <= n && d + n <= mem.Length == |was| && s + n <= mem.Length
    requires from == n || (d + from) % 8 == 0
    requires Copied(mem, was, d, s, 0, from) && UpIsSafe(d, s, n)
    modifies mem
    ensures from <= i <= n && n - i < 8 && Copied(mem, was, d, s, 0, i)
  {
    i := from;
    while n - i >= 8
      invariant from <= i <= n && (n - i >= 8 ==> (d + i) % 8 == 0)
      invariant Copied(mem, was, d, s, 0, i)
    {
      CopyWord(mem, d + i, s + i);
      i := i + 8;
    }
  }

  /** The ascending copy of `memcpy` and of the first branch of `memmove`. */
  method CopyUp(mem: array<bv8>, d: nat, s: nat, n: nat)
    requires d + n <= mem.Length && s + n <= mem.Length && UpIsSafe(d, s, n)
    modifies mem
    ensures mem[..] == Moved(old(mem[..]), d, s, n)
  {
    ghost var was := mem[..];
    var i := BytesUp(mem, d, s, 0, n, true, was);
    i := WordsUp(mem, d, s, i, n, was);
    i := BytesUp(mem, d, s, i, n, false, was);
  }

  /** One byte at a time below byte `from`, to the start or to an aligned destination. */
  method BytesDown(mem: array<bv8>, d: nat, s: nat, from: nat, n: nat, toAligned: bool, ghost was: seq<bv8>)
    returns (i: nat)
    requires from <= n && d + n <= mem.Length == |was| && s <= d
    requires Copied(mem, was, d, s, from, n)
    modifies mem
    ensures i <= from && (i == 0 || (toAligned && (d + i) % 8 == 0))
    ensures Copied(mem, was, d, s, i, n)
  {
    i := from;
    while i > 0 && (!toAligned || (d + i) % 8 != 0)
      invariant i <= from
      invariant Copied(mem, was, d, s, i, n)
    {
      i := i - 1;
      mem[d + i] := mem[s + i];
    }
  }

  method WordsDown(mem: array<bv8>, d: nat, s: nat, from: nat, n: nat, ghost was: seq<bv8>)
    returns (i: nat)
    requires from <= n && d + n <= mem.Length == |was| && s <= d
    requires from == 0 || (d + from) % 8 == 0
    requires Copied(mem, was, d, s, from, n)
    modifies mem
    ensures i <= from && i < 8 && Copied(mem, was, d, s, i, n)
  {
    i := from;
    while i >= 8
      invariant i <= from && (i >= 8 ==> (d + i) % 8 == 0)
      invariant Copied(mem, was, d, s, i, n)
    {
      i := i - 8;
      CopyWord(mem, d + i, s + i);
    }
  }

  /** The descending copy of `memmove`. */
  method CopyDown(mem: array<bv8>, d: nat, s: nat, n: nat)
    requires d + n <= mem.Length && s <= d
    modifies mem
    ensures mem[..] == Moved(old(mem[..]), d, s, n)
  {
    ghost var was := mem[..];
    var i := BytesDown(mem, d, s, n, n, true, was);
    i := WordsDown(mem, d, s, i, n, was);
    i := BytesDown(mem, d, s, i, n, false, was);
  }

  /** Copies between ranges that do not overlap, or downwards. */
  method Memcpy(mem: array<bv8>, d: nat, s: nat, n: nat)
    requires d + n <= mem.Length && s + n <= mem.Length && UpIsSafe(d, s, n)
    modifies mem
    ensures mem[..] == Moved(old(mem[..]), d, s, n)
  {
    CopyUp(mem, d, s, n);
  }

  /** Copies between any two ranges. */
  method Memmove(mem: array<bv8>, d: nat, s: nat, n: nat)
    requires d + n <= mem.Length && s + n <= mem.Length
    modifies mem
    ensures mem[..] == Moved(old(mem[..]), d, s, n)
  {
    if d < s || d >= s + n {
      CopyUp(mem, d, s, n);
    } else {
      CopyDown(mem, d, s, n);
    }
  }

  method Memset(mem: array<bv8>, d: nat, c: int, n: nat)
    requires d + n <= mem.Length
    modifies mem
    ensures mem[..] == Filled(old(mem[..]), d, (c % 256) as bv8, n)
  {
    var v := (c % 256) as bv8;
    var i := 0;
    while i < n && (d + i) % 8 != 0
      invariant 0 <= i <= n
      invariant forall k | 0 <= k < mem.Length :: mem[k] == if d <= k < d + i then v else old(mem[k])
    {
      mem[d + i] := v;
      i := i + 1;
    }
    WideSplits(v);
    while n - i >= 8
      invariant 0 <= i <= n && (n - i >= 8 ==> (d + i) % 8 == 0)
      invariant forall k | 0 <= k < mem.Length :: mem[k] == if d <= k < d + i then v else old(mem[k])
    {
      StoreWord(mem, d + i, Wide(v));
      i := i + 8;
    }
    while i < n
      invariant 0 <= i <= n
      invariant forall k | 0 <= k < mem.Length :: mem[k] == if d <= k < d + i then v else old(mem[k])
    {
      mem[d + i] := v;
      i := i + 1;
    }
  }
}
