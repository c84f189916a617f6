/** Bytes, C integer widths and the byte-sequence operations the other modules share. */
module Bytes {

  type Byte = x: int | 0 <= x < 256

  const TWO_TO_16: int := 0x1_0000
  const TWO_TO_32: int := 0x1_0000_0000
  const TWO_TO_64: int := 0x1_0000_0000_0000_0000

  type U16 = x: int | 0 <= x < TWO_TO_16
  type U32 = x: int | 0 <= x < TWO_TO_32
  type U64 = x: int | 0 <= x < TWO_TO_64

  /** A NUL-terminated C string, without its terminator. */
  type CString = s: seq<Byte> | 0 !in s witness []

  function Min(a: int, b: int): int { if a <= b then a else b }

  function Max(a: int, b: int): int { if a <= b then b else a }

  /** `base` with the bytes from `at` on replaced by `patch`. */
  function Splice<T>(base: seq<T>, at: nat, patch: seq<T>): (r: seq<T>)
    requires at + |patch| <= |base|
    ensures |r| == |base|
    ensures forall i | 0 <= i < |base| ::
              r[i] == if at <= i < at + |patch| then patch[i - at] else base[i]
  {
    base[..at] + patch + base[at + |patch|..]
  }

  lemma SliceOfSlice<T>(b: seq<T>, at: nat, n: nat, i: nat, j: nat)
    requires at + n <= |b| && i <= j <= n
    ensures b[at..at + n][i..j] == b[at + i..at + j]
  {
    var c := b[at..at + n];
    forall k | 0 <= k < j - i ensures c[i..j][k] == b[at + i..at + j][k] {
      assert c[i + k] == b[at + (i + k)];
    }
  }

  /** Little-endian bytes of `v`, least significant first; `v` is cut to `width` bytes. */
  function ToLittleEndian(v: nat, width: nat): (r: seq<Byte>)
    ensures |r| == width
  {
    if width == 0 then [] else [v % 256] + ToLittleEndian(v / 256, width - 1)
  }

  function FromLittleEndian(s: seq<Byte>): (v: nat)
  {
    if s == [] then 0 else s[0] + 256 * FromLittleEndian(s[1..])
  }

  lemma FourLow(w: seq<Byte>)
    requires |w| >= 4
    ensures FromLittleEndian(w) == w[0] as int + 0x100 * (w[1] as int) + 0x1_0000 * (w[2] as int)
                                   + 0x100_0000 * (w[3] as int) + 0x1_0000_0000 * FromLittleEndian(w[4..])
  {
    assert w[1..][1..] == w[2..] && w[2..][1..] == w[3..] && w[3..][1..] == w[4..];
    assert FromLittleEndian(w[3..]) == w[3] + 256 * FromLittleEndian(w[4..]);
    assert FromLittleEndian(w[2..]) == w[2] + 256 * FromLittleEndian(w[3..]);
    assert FromLittleEndian(w[1..]) == w[1] + 256 * FromLittleEndian(w[2..]);
  }

  lemma NoBytes()
    ensures FromLittleEndian([]) == 0
  {
  }

  function Power256(n: nat): (r: nat)
    ensures r >= 1
  {
    if n == 0 then 1 else 256 * Power256(n - 1)
  }

  lemma {:induction false} FromToLittleEndian(v: nat, width: nat)
    requires v < Power256(width)
    ensures FromLittleEndian(ToLittleEndian(v, width)) == v
  {
    if width > 0 {
      var r := ToLittleEndian(v, width);
      assert r[1..] == ToLittleEndian(v / 256, width - 1);
      FromToLittleEndian(v / 256, width - 1);
    }
  }

  lemma LowDigit(low: Byte, rest: nat)
    ensures (low + 256 * rest) % 256 == low && (low + 256 * rest) / 256 == rest
  {
  }

  lemma {:induction false} ToFromLittleEndian(s: seq<Byte>)
    ensures FromLittleEndian(s) < Power256(|s|)
    ensures ToLittleEndian(FromLittleEndian(s), |s|) == s
  {
    if s != [] {
      ToFromLittleEndian(s[1..]);
      var rest := FromLittleEndian(s[1..]);
      LowDigit(s[0], rest);
      assert s == [s[0]] + s[1..];
    }
  }

  lemma EightByteRange()
    ensures Power256(8) == TWO_TO_64
  {
    assert Power256(2) == 0x1_0000;
    assert Power256(4) == 0x1_0000_0000;
    assert Power256(6) == 0x1_0000_0000_0000;
  }
}
