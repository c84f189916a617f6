/** The Internet checksum (net/checksum.h, net/tcp.c) on a little-endian host. */
module InternetChecksum {
  import opened Bytes

  // ---- the specification ----

  /** Two bytes as a little-endian word. */
  function Pair(lo: Byte, hi: Byte): U16 {
    var l: int, h: int := lo, hi;
    l + 256 * h
  }

  /** The 16-bit words of a buffer, low byte first, a last odd byte on its own, added up. */
  function WordSum(b: seq<Byte>): nat {
    if |b| == 0 then 0
    else if |b| == 1 then b[0]
    else Pair(b[0], b[1]) + WordSum(b[2..])
  }

  /** One's complement addition: the carry comes back in at the bottom. */
  function OnesAdd(a: U16, b: U16): U16 {
    if a + b >= TWO_TO_16 then a + b - 0xFFFF else a + b
  }

  /** The one's complement sum of section 1 of RFC 1071. */
  function OnesSum(b: seq<Byte>): U16 {
    if |b| == 0 then 0
    else if |b| == 1 then b[0]
    else OnesAdd(Pair(b[0], b[1]), OnesSum(b[2..]))
  }

  /** The representative modulo 65535 that is zero only for zero. */
  function Rep(x: nat): (r: U16)
  {
    if x == 0 then 0 else (x - 1) % 0xFFFF + 1
  }

  /** What `ip_checksum` returns: the sum kept in 32 bits, folded, complemented. */
  function IpSum(b: seq<Byte>): U16 { 0xFFFF - Rep(WordSum(b) % TWO_TO_32) }

  // ---- the loops ----

  lemma RepFold(x: nat)
    requires x >= TWO_TO_16
    ensures Rep(x % TWO_TO_16 + x / TWO_TO_16) == Rep(x)
  {
    RepCongruent(x, x % TWO_TO_16 + x / TWO_TO_16, x / TWO_TO_16);
  }

  /** Numbers that differ by a multiple of 65535 and are both zero or both not. */
  lemma RepCongruent(x: nat, y: nat, k: int)
    requires x == y + 0xFFFF * k && (x == 0 <==> y == 0)
    ensures Rep(x) == Rep(y)
  {
    if x > 0 {
      ModShift(y - 1, k);
    }
  }

  lemma ModShift(a: nat, k: int)
    requires a + 0xFFFF * k >= 0
    ensures (a + 0xFFFF * k) % 0xFFFF == a % 0xFFFF
  {
  }

  lemma RepRange(x: nat)
    ensures x < TWO_TO_16 ==> Rep(x) == x
  {
  }

  /** Folds the carries of a 32-bit sum into 16 bits. */
  method FoldCarries(start: U32) returns (sum: U16)
    ensures sum == Rep(start)
  {
    var s: U32 := start;
    while s / TWO_TO_16 != 0
      invariant Rep(s) == Rep(start)
      decreases s
    {
      RepFold(s);
      s := s % TWO_TO_16 + s / TWO_TO_16;
    }
    RepRange(s);
    sum := s;
  }

  /** Adds the words of `b` to a 32-bit accumulator, modulo 2^32. */
  method AddWords(b: seq<Byte>, start: U32) returns (sum: U32)
    ensures sum == (start + WordSum(b)) % TWO_TO_32
  {
    sum := start;
    var i := 0;
    while |b| - i > 1
      invariant 0 <= i <= |b|
      invariant (sum + WordSum(b[i..])) % TWO_TO_32 == (start + WordSum(b)) % TWO_TO_32
    {
      assert b[i..][2..] == b[i + 2..];
      DropModulus(sum + Pair(b[i], b[i + 1]), WordSum(b[i + 2..]));
      sum := (sum + Pair(b[i], b[i + 1])) % TWO_TO_32;
      i := i + 2;
    }
    if |b| - i == 1 {
      sum := (sum + b[i]) % TWO_TO_32;
    }
  }

  lemma DropModulus(x: nat, y: nat)
    ensures (x % TWO_TO_32 + y) % TWO_TO_32 == (x + y) % TWO_TO_32
  {
  }

  method IpChecksum(b: seq<Byte>) returns (r: U16)
    ensures r == IpSum(b)
  {
    var sum := AddWords(b, 0);
    var folded := FoldCarries(sum);
    r := 0xFFFF - folded;
  }

  // ---- agreement with the one's complement sum ----

  lemma OnesAddIsRep(a: U16, x: nat)
    ensures OnesAdd(a, Rep(x)) == Rep(a + x)
  {
    if x > 0 {
      var k := (x - 1) / 0xFFFF;
      assert x == Rep(x) + 0xFFFF * k;
      RepCongruent(a + x, a + Rep(x), k);
      if a + Rep(x) >= TWO_TO_16 {
        RepCongruent(a + Rep(x), a + Rep(x) - 0xFFFF, 1);
      }
    }
  }

  lemma {:induction false} OnesSumIsRep(b: seq<Byte>)
    ensures OnesSum(b) == Rep(WordSum(b))
  {
    if |b| > 1 {
      OnesSumIsRep(b[2..]);
      OnesAddIsRep(Pair(b[0], b[1]), WordSum(b[2..]));
    }
  }

  lemma {:induction false} WordSumBound(b: seq<Byte>)
    ensures WordSum(b) <= 0xFFFF * ((|b| + 1) / 2)
  {
    if |b| > 1 {
      WordSumBound(b[2..]);
    }
  }

  /**
   * The 32-bit accumulator computes the one's complement checksum exactly as long as
   * the plain sum of the words fits it; a carry out of bit 31 is lost.
   */
  lemma ExactIff(b: seq<Byte>)
    requires |b| < TWO_TO_32
    ensures IpSum(b) == 0xFFFF - OnesSum(b) <==> WordSum(b) < TWO_TO_32
  {
    OnesSumIsRep(b);
    WordSumBound(b);
    var s := WordSum(b);
    var k, w := s / TWO_TO_32, s % TWO_TO_32;
    if k > 0 {
      LostCarries(s, k, w);
    }
  }

  lemma {:induction false} OnesWordSum(n: nat)
    ensures WordSum(seq(2 * n, _ => 0xFF)) == 0xFFFF * n
  {
    if n > 0 {
      OnesWordSum(n - 1);
      assert seq(2 * n, _ => 0xFF)[2..] == seq(2 * (n - 1), _ => 0xFF);
    }
  }

  /** 65538 words of ones overflow the accumulator, and the checksum comes out wrong. */
  lemma CarryIsLost()
    ensures var b: seq<Byte> := seq(131076, _ => 0xFF); IpSum(b) != 0xFFFF - OnesSum(b)
  {
    var b: seq<Byte> := seq(131076, _ => 0xFF);
    OnesWordSum(65538);
    ExactIff(b);
  }

  lemma LostCarries(s: nat, k: nat, w: nat)
    requires s == k * TWO_TO_32 + w && 0 < k < 0xFFFF
    ensures Rep(s) != Rep(w)
  {
    if w > 0 && Rep(s) == Rep(w) {
      var a, c := (s - 1) / 0xFFFF, (w - 1) / 0xFFFF;
      assert s - w == 0xFFFF * (a - c);
      assert s - w == 0xFFFF * (k * 0x1_0001) + k;
      Multiple(k, a - c - k * 0x1_0001);
    }
  }

  lemma Multiple(k: nat, m: int)
    requires 0 < k < 0xFFFF
    ensures k != 0xFFFF * m
  {
  }

  /** Up to 65537 words, nothing is lost. */
  lemma ShortIsExact(b: seq<Byte>)
    requires |b| <= 131074
    ensures WordSum(b) < TWO_TO_32 && IpSum(b) == 0xFFFF - OnesSum(b)
  {
    WordSumBound(b);
    assert (|b| + 1) / 2 <= 0x1_0001;
    OnesSumIsRep(b);
  }

  lemma ShortSum(b: seq<Byte>)
    requires |b| <= 131074
    ensures IpSum(b) == 0xFFFF - Rep(WordSum(b))
  {
    hide WordSum, Rep, OnesSum;
    ShortIsExact(b);
    OnesSumIsRep(b);
  }

  /** A last odd byte counts as if a zero followed it, section 2 of RFC 1071. */
  lemma {:induction false} OddIsPadded(b: seq<Byte>)
    requires |b| % 2 == 1
    ensures WordSum(b + [0]) == WordSum(b) && IpSum(b + [0]) == IpSum(b)
  {
    if |b| > 1 {
      assert (b + [0])[2..] == b[2..] + [0];
      OddIsPadded(b[2..]);
    } else {
      assert (b + [0])[2..] == [];
    }
  }

  /** The worked example of section 3 of RFC 1071, on a host that keeps the low byte first. */
  lemma WorkedExample(b: seq<Byte>)
    requires b == [0x00, 0x01, 0xF2, 0x03, 0xF4, 0xF5, 0xF6, 0xF7]
    ensures OnesSum(b) == 0xF2DD && IpSum(b) == 0x0D22 && LittleEndian(IpSum(b)) == [0x22, 0x0D]
  {
    assert b[2..] == [0xF2, 0x03, 0xF4, 0xF5, 0xF6, 0xF7];
    assert b[2..][2..] == [0xF4, 0xF5, 0xF6, 0xF7];
    assert b[2..][2..][2..] == [0xF6, 0xF7];
    TwoBytes(0xF6, 0xF7);
    ShortIsExact(b);
    assert OnesSum([0xF6, 0xF7]) == 0xF7F6 by {
      assert [0xF6, 0xF7][2..] == [];
    }
    assert OnesSum(b[2..][2..]) == 0xEDEB;
  }

  // ---- verification at the receiver ----

  lemma {:induction false} WordSumConcat(a: seq<Byte>, b: seq<Byte>)
    requires |a| % 2 == 0
    ensures WordSum(a + b) == WordSum(a) + WordSum(b)
  {
    if a == [] {
      assert a + b == b;
    } else {
      assert (a + b)[2..] == a[2..] + b;
      WordSumConcat(a[2..], b);
    }
  }

  function LittleEndian(c: U16): (r: seq<Byte>)
    ensures |r| == 2
  {
    [c % 256, c / 256]
  }

  /** `b` with the word `c` stored at offset `k`. */
  function WithWord(b: seq<Byte>, k: nat, c: U16): (r: seq<Byte>)
    requires k + 2 <= |b|
    ensures |r| == |b|
  {
    b[..k] + LittleEndian(c) + b[k + 2..]
  }

  lemma StoreAddsWord(b: seq<Byte>, k: nat, c: U16)
    requires k % 2 == 0 && k + 2 <= |b| && b[k] == 0 && b[k + 1] == 0
    ensures WordSum(WithWord(b, k, c)) == WordSum(b) + c
  {
    hide WordSum, LittleEndian;
    var p, z, t := b[..k], b[k..k + 2], b[k + 2..];
    Cut(b, k, c);
    WordSumConcat(p, z + t);
    WordSumConcat(z, t);
    ZeroWord(z);
    WordSumConcat(p, LittleEndian(c) + t);
    WordSumConcat(LittleEndian(c), t);
    WordOfBytes(c);
  }

  lemma Cut(b: seq<Byte>, k: nat, c: U16)
    requires k + 2 <= |b|
    ensures b == b[..k] + (b[k..k + 2] + b[k + 2..])
    ensures WithWord(b, k, c) == b[..k] + (LittleEndian(c) + b[k + 2..])
  {
    hide LittleEndian;
  }

  lemma ZeroWord(z: seq<Byte>)
    requires |z| == 2 && z[0] == 0 && z[1] == 0
    ensures WordSum(z) == 0
  {
    assert z[2..] == [];
  }

  lemma WordOfBytes(c: U16)
    ensures WordSum(LittleEndian(c)) == c
  {
    assert LittleEndian(c)[2..] == [];
  }

  /** A buffer whose zero checksum field receives the checksum sums to the all-ones word. */
  lemma StoredVerifies(b: seq<Byte>, k: nat)
    requires |b| <= 131074 && k % 2 == 0 && k + 2 <= |b| && b[k] == 0 && b[k + 1] == 0
    ensures IpSum(WithWord(b, k, IpSum(b))) == 0
  {
    hide *;
    var s, c := WordSum(b), IpSum(b);
    ShortSum(b);
    StoreAddsWord(b, k, c);
    ShortSum(WithWord(b, k, c));
    ComplementSums(s, c);
  }

  lemma ComplementSums(s: nat, c: U16)
    requires c == 0xFFFF - Rep(s)
    ensures Rep(s + c) == 0xFFFF
  {
    if s > 0 {
      var q := (s - 1) / 0xFFFF;
      assert s + c == 0xFFFF + 0xFFFF * q;
      RepCongruent(s + c, 0xFFFF, q);
    }
  }

  // ---- byte order ----

  function Swap16(w: U16): U16 { w % 256 * 256 + w / 256 }

  function Swapped(b: seq<Byte>): (r: seq<Byte>)
    requires |b| % 2 == 0
    ensures |r| == |b|
  {
    if b == [] then [] else [b[1], b[0]] + Swapped(b[2..])
  }

  function HighSum(b: seq<Byte>): nat
    requires |b| % 2 == 0
  {
    if b == [] then 0 else b[1] + HighSum(b[2..])
  }

  lemma {:induction false} SwappedSum(b: seq<Byte>)
    requires |b| % 2 == 0
    ensures WordSum(Swapped(b)) == 256 * WordSum(b) - 0xFFFF * HighSum(b)
    ensures WordSum(Swapped(b)) == 0 <==> WordSum(b) == 0
  {
    if b != [] {
      SwappedSum(b[2..]);
      var r := Swapped(b);
      assert r[2..] == Swapped(b[2..]) && r[0] == b[1] && r[1] == b[0];
    }
  }

  lemma SwapIsTimes256(x: U16)
    ensures Swap16(x) == 256 * x - 0xFFFF * (x / 256)
    ensures Swap16(0xFFFF - x) == 0xFFFF - Swap16(x)
    ensures Swap16(x) == 0 <==> x == 0
  {
  }

  /** Section 2(B) of RFC 1071: swapping the bytes of every word swaps the bytes of the checksum. */
  lemma ByteOrderIndependent(b: seq<Byte>)
    requires |b| % 2 == 0 && |b| <= 131074
    ensures IpSum(Swapped(b)) == Swap16(IpSum(b))
  {
    hide *;
    ShortSum(b);
    ShortSum(Swapped(b));
    SwappedSum(b);
    SwapRep(WordSum(b), HighSum(b), WordSum(Swapped(b)));
    SwapIsTimes256(Rep(WordSum(b)));
  }

  lemma SwapRep(s: nat, h: nat, t: nat)
    requires t == 256 * s - 0xFFFF * h && (t == 0 <==> s == 0)
    ensures Rep(t) == Swap16(Rep(s))
  {
    SwapIsTimes256(Rep(s));
    if s > 0 {
      var q := (s - 1) / 0xFFFF;
      assert s == Rep(s) + 0xFFFF * q;
      RepCongruent(t, Swap16(Rep(s)), 256 * q - h + Rep(s) / 256);
      RepRange(Swap16(Rep(s)));
    }
  }

  // ---- TCP ----

  /** A 32-bit value as it lies in memory. */
  function Bytes32(v: U32): (b: seq<Byte>)
    ensures |b| == 4
  {
    [v % 0x100, v / 0x100 % 0x100, v / 0x1_0000 % 0x100, v / 0x100_0000]
  }

  /** The 12-byte pseudo-header of section 3.1 of RFC 793, from addresses held in network byte order. */
  function PseudoHeader(src: U32, dst: U32, len: nat): (h: seq<Byte>)
    ensures |h| == 12
  {
    Bytes32(src) + (Bytes32(dst) + [0, 6, len / 256 % 256, len % 256])
  }

  lemma TwoBytes(lo: Byte, hi: Byte)
    ensures WordSum([lo, hi]) == Pair(lo, hi)
  {
    assert [lo, hi][2..] == [];
  }

  lemma FourBytes(b0: Byte, b1: Byte, b2: Byte, b3: Byte)
    ensures WordSum([b0, b1, b2, b3]) == Pair(b0, b1) + Pair(b2, b3)
  {
    assert [b0, b1, b2, b3][2..] == [b2, b3];
    TwoBytes(b2, b3);
  }

  lemma SumOf32(v: U32)
    ensures WordSum(Bytes32(v)) == v / TWO_TO_16 + v % TWO_TO_16
  {
    var b := Bytes32(v);
    FourBytes(b[0], b[1], b[2], b[3]);
    Halves(v);
  }

  lemma Halves(v: U32)
    ensures v % 0x100 + 256 * (v / 0x100 % 0x100) == v % TWO_TO_16
    ensures v / 0x1_0000 % 0x100 + 256 * (v / 0x100_0000) == v / TWO_TO_16
  {
  }

  lemma PseudoSum(src: U32, dst: U32, len: nat)
    ensures WordSum(PseudoHeader(src, dst, len)) ==
            src / TWO_TO_16 + src % TWO_TO_16 + dst / TWO_TO_16 + dst % TWO_TO_16
            + Swap16(6) + Swap16(len % TWO_TO_16)
  {
    var tail: seq<Byte> := [0, 6, len / 256 % 256, len % 256];
    WordSumConcat(Bytes32(src), Bytes32(dst) + tail);
    WordSumConcat(Bytes32(dst), tail);
    SumOf32(src);
    SumOf32(dst);
    FourBytes(0, 6, len / 256 % 256, len % 256);
    LengthWord(len);
    hide WordSum, Bytes32;
  }

  lemma LengthWord(len: nat)
    ensures Pair(len / 256 % 256, len % 256) == Swap16(len % TWO_TO_16)
    ensures Pair(0, 6) == Swap16(6)
  {
    var l := len % TWO_TO_16;
    assert len == TWO_TO_16 * (len / TWO_TO_16) + l;
    assert len / 256 % 256 == l / 256 && len % 256 == l % 256;
  }

  method AddPseudoHeader(src: U32, dst: U32, len: nat) returns (sum: U32)
    ensures sum == WordSum(PseudoHeader(src, dst, len))
  {
    PseudoSum(src, dst, len);
    sum := AddSix(src / TWO_TO_16, src % TWO_TO_16, dst / TWO_TO_16, dst % TWO_TO_16,
                  Swap16(6), Swap16(len % TWO_TO_16));
  }

  function Add32(x: U32, y: U32): (r: U32)
    ensures x + y < TWO_TO_32 ==> r == x + y
  {
    (x + y) % TWO_TO_32
  }

  /** Six words are too few to overflow the accumulator. */
  method AddSix(a: U16, b: U16, c: U16, d: U16, e: U16, f: U16) returns (sum: U32)
    ensures sum == a + b + c + d + e + f
  {
    hide Add32;
    sum := Add32(a, b);
    sum := Add32(sum, c);
    sum := Add32(sum, d);
    sum := Add32(sum, e);
    sum := Add32(sum, f);
  }

  /** `tcp_checksum`: addresses in network byte order, the segment's words, one accumulator. */
  method TcpChecksum(src: U32, dst: U32, segment: seq<Byte>) returns (r: U16)
    ensures r == IpSum(PseudoHeader(src, dst, |segment|) + segment)
  {
    hide WordSum, PseudoHeader, Rep;
    var sum := AddPseudoHeader(src, dst, |segment|);
    sum := AddWords(segment, sum);
    WordSumConcat(PseudoHeader(src, dst, |segment|), segment);
    var folded := FoldCarries(sum);
    r := 0xFFFF - folded;
  }
}
