/** The CRC-32 of downloaded packages (kernel/ota.c), polynomial of section 8 of RFC 1952. */
module Crc32 {

  const POLYNOMIAL: bv32 := 0xEDB8_8320
  const ONES: bv32 := 0xFFFF_FFFF

  function Xor(a: bv32, b: bv32): bv32 { a ^ b }

  predicate Odd(x: bv32) { x & 1 == 1 }

  function Half(x: bv32): bv32 { x >> 1 }

  /** One turn of the shift register. */
  function Turn(crc: bv32): bv32 {
    if Odd(crc) then Xor(Half(crc), POLYNOMIAL) else Half(crc)
  }

  function Turns(crc: bv32, n: nat): bv32
    decreases n
  {
    if n == 0 then crc else Turns(Turn(crc), n - 1)
  }

  function FoldByte(crc: bv32, b: bv8): bv32 {
    Turns(Xor(crc, b as bv32), 8)
  }

  function Fold(crc: bv32, data: seq<bv8>): bv32
    decreases data
  {
    if data == [] then crc else Fold(FoldByte(crc, data[0]), data[1..])
  }

  function Crc(data: seq<bv8>): bv32 { Xor(Fold(ONES, data), ONES) }

  // ---- the loops ----

  method Crc32Byte(crc: bv32, b: bv8) returns (r: bv32)
    ensures r == FoldByte(crc, b)
  {
    r := crc ^ (b as bv32);
    for i := 0 to 8
      invariant Turns(r, 8 - i) == FoldByte(crc, b)
    {
      if r & 1 == 1 {
        r := (r >> 1) ^ POLYNOMIAL;
      } else {
        r := r >> 1;
      }
    }
  }

  method Crc32Buf(data: array<bv8>, len: nat) returns (r: bv32)
    requires len <= data.Length
    ensures r == Crc(data[..len])
  {
    r := ONES;
    hide FoldByte;
    for i := 0 to len
      invariant Fold(r, data[i..len]) == Fold(ONES, data[..len])
    {
      assert data[i..len][1..] == data[i + 1..len];
      r := Crc32Byte(r, data[i]);
    }
    r := r ^ ONES;
  }

  // ---- the register's algebra ----

  lemma XorAssociates(a: bv32, b: bv32, c: bv32)
    ensures Xor(Xor(a, b), c) == Xor(a, Xor(b, c))
  {
    calc {
      Xor(Xor(a, b), c);
      Xor(a ^ b, c);
      (a ^ b) ^ c;
      a ^ (b ^ c);
      Xor(a, b ^ c);
      Xor(a, Xor(b, c));
    }
  }

  lemma XorCommutes(a: bv32, b: bv32)
    ensures Xor(a, b) == Xor(b, a)
  {
  }

  lemma XorSelf(a: bv32)
    ensures Xor(a, a) == 0 && Xor(a, 0) == a
  {
  }

  lemma XorRegroup(a: bv32, b: bv32, c: bv32)
    ensures Xor(Xor(a, c), b) == Xor(Xor(a, b), c)
    ensures Xor(a, Xor(b, c)) == Xor(Xor(a, b), c)
    ensures Xor(Xor(a, c), Xor(b, c)) == Xor(a, b)
  {
    XorAssociates(a, b, c);
    XorAssociates(a, c, b);
    XorCommutes(b, c);
    XorAssociates(Xor(a, c), b, c);
    XorAssociates(Xor(a, b), c, c);
    XorSelf(c);
    XorSelf(Xor(a, b));
    hide *;
  }

  lemma XorCancels(a: bv32, b: bv32, c: bv32)
    requires Xor(a, c) == Xor(b, c)
    ensures a == b
  {
  }

  lemma XorCancelsLeft(c: bv32, a: bv32, b: bv32)
    requires Xor(c, a) == Xor(c, b)
    ensures a == b
  {
  }

  lemma HalfXor(x: bv32, y: bv32)
    ensures Half(Xor(x, y)) == Xor(Half(x), Half(y))
  {
    calc {
      Half(Xor(x, y));
      (x ^ y) >> 1;
      (x >> 1) ^ (y >> 1);
      Xor(Half(x), Half(y));
    }
  }

  lemma OddXor(x: bv32, y: bv32)
    ensures Odd(Xor(x, y)) <==> Odd(x) != Odd(y)
  {
  }

  lemma TurnCases(x: bv32)
    ensures Turn(x) == if Odd(x) then Xor(Half(x), POLYNOMIAL) else Half(x)
  {
    hide Odd, Half, Xor;
  }

  lemma TurnIsLinear(x: bv32, y: bv32)
    ensures Turn(Xor(x, y)) == Xor(Turn(x), Turn(y))
  {
    hide *;
    HalfXor(x, y);
    OddXor(x, y);
    TurnCases(x);
    TurnCases(y);
    TurnCases(Xor(x, y));
    XorRegroup(Half(x), Half(y), POLYNOMIAL);
  }

  lemma TurnIsInjective(x: bv32, y: bv32)
    requires Turn(x) == Turn(y)
    ensures x == y
  {
  }

  function Up(x: bv32): bv32 { x << 1 }

  /** A value without its top bit passes through the register one place up. */
  lemma TurnOfUp(x: bv32)
    requires x < 0x8000_0000
    ensures Turn(Up(x)) == x
  {
  }

  /** Feeding a bit and then `rest` is feeding both at once, one place apart. */
  lemma TurnAhead(crc: bv32, bit: bv32, rest: bv32)
    requires rest < 0x8000_0000
    ensures Turn(Xor(crc, Xor(bit, Up(rest)))) == Xor(Turn(Xor(crc, bit)), rest)
  {
    XorRegroup(crc, bit, Up(rest));
    TurnIsLinear(Xor(crc, bit), Up(rest));
    TurnOfUp(rest);
    hide *;
  }

  // ---- the message as bits, least significant bit of each byte first ----

  function Word(bit: bool): bv32 { if bit then 1 else 0 }

  function BitsOf(b: bv8, n: nat): (bits: seq<bool>)
    ensures |bits| == n
  {
    if n == 0 then [] else [b & 1 == 1] + BitsOf(b >> 1, n - 1)
  }

  function Bits(data: seq<bv8>): (bits: seq<bool>)
    ensures |bits| == 8 * |data|
  {
    if data == [] then [] else BitsOf(data[0], 8) + Bits(data[1..])
  }

  function FoldBits(crc: bv32, bits: seq<bool>): bv32
    decreases bits
  {
    if bits == [] then crc else FoldBits(Turn(Xor(crc, Word(bits[0]))), bits[1..])
  }

  lemma {:induction false} FoldBitsConcat(crc: bv32, p: seq<bool>, q: seq<bool>)
    ensures FoldBits(crc, p + q) == FoldBits(FoldBits(crc, p), q)
    decreases p
  {
    if p == [] {
      assert p + q == q;
    } else {
      assert (p + q)[1..] == p[1..] + q;
      FoldBitsConcat(Turn(Xor(crc, Word(p[0]))), p[1..], q);
    }
  }

  lemma {:induction false} FoldBitsInjective(c: bv32, d: bv32, bits: seq<bool>)
    requires FoldBits(c, bits) == FoldBits(d, bits)
    ensures c == d
    decreases bits
  {
    hide Turn, Xor, Word;
    if bits != [] {
      var b := Word(bits[0]);
      FoldBitsInjective(Turn(Xor(c, b)), Turn(Xor(d, b)), bits[1..]);
      TurnIsInjective(Xor(c, b), Xor(d, b));
      XorCancels(c, d, b);
    }
  }

  lemma SplitLowBit(b: bv8)
    ensures b as bv32 == Xor(Word(b & 1 == 1), Up((b >> 1) as bv32))
    ensures (b >> 1) as bv32 < 0x8000_0000
  {
  }

  /** `b` without its `n` low bits. */
  function Drop(b: bv8, n: nat): bv8
    decreases n
  {
    if n == 0 then b else Drop(b >> 1, n - 1)
  }

  lemma DropAll(b: bv8)
    ensures Drop(b, 8) == 0
  {
    assert Drop(b, 4) == b >> 4;
    assert Drop(b >> 4, 4) == 0;
    assert Drop(b, 6) == Drop(b >> 4, 2);
    assert Drop(b, 8) == Drop(b >> 4, 4);
  }

  /** Turning the register on a whole byte is feeding its bits one at a time. */
  lemma {:induction false} ByteAsBits(crc: bv32, b: bv8, n: nat)
    ensures Turns(Xor(crc, b as bv32), n) == Xor(FoldBits(crc, BitsOf(b, n)), Drop(b, n) as bv32)
    decreases n
  {
    if n > 0 {
      SplitLowBit(b);
      TurnAhead(crc, Word(b & 1 == 1), (b >> 1) as bv32);
      ByteAsBits(Turn(Xor(crc, Word(b & 1 == 1))), b >> 1, n - 1);
      assert BitsOf(b, n)[1..] == BitsOf(b >> 1, n - 1);
      hide Turn, Xor, Word, Up;
    }
  }

  lemma FoldByteAsBits(crc: bv32, b: bv8)
    ensures FoldByte(crc, b) == FoldBits(crc, BitsOf(b, 8))
  {
    hide Turns, Xor, FoldBits, BitsOf, Drop;
    ByteAsBits(crc, b, 8);
    DropAll(b);
    XorSelf(FoldBits(crc, BitsOf(b, 8)));
  }

  lemma {:induction false} FoldAsBits(crc: bv32, data: seq<bv8>)
    ensures Fold(crc, data) == FoldBits(crc, Bits(data))
    decreases data
  {
    hide FoldByte, BitsOf, Turn, Xor, Word;
    if data != [] {
      FoldByteAsBits(crc, data[0]);
      FoldBitsConcat(crc, BitsOf(data[0], 8), Bits(data[1..]));
      FoldAsBits(FoldByte(crc, data[0]), data[1..]);
    }
  }

  // ---- bursts ----

  /** A window of bits as one word, first bit lowest. */
  function Pack(bits: seq<bool>): bv32 {
    if bits == [] then 0 else Xor(Word(bits[0]), Up(Pack(bits[1..])))
  }

  predicate Below(x: bv32, y: bv32) { x < y }

  /** 2^n. */
  function Ceiling(n: nat): bv32
    requires n <= 31
    decreases 31 - n
  {
    if n == 31 then 0x8000_0000 else Half(Ceiling(n + 1))
  }

  lemma CeilingOfNone()
    ensures Ceiling(0) == 1
  {
    assert Ceiling(24) == 0x100_0000;
    assert Ceiling(16) == 0x1_0000;
    assert Ceiling(8) == 0x100;
  }

  /** Every ceiling is at most the top bit. */
  lemma {:induction false} UnderCeiling(x: bv32, n: nat)
    requires n <= 31 && Below(x, Ceiling(n))
    ensures Below(x, 0x8000_0000)
    decreases 31 - n
  {
    if n < 31 {
      BelowHalf(x, Ceiling(n + 1));
      UnderCeiling(x, n + 1);
      hide Half, Below;
    }
  }

  lemma BelowHalf(x: bv32, y: bv32)
    requires Below(x, Half(y))
    ensures Below(x, y)
  {
  }

  lemma PackBelow(bit: bool, rest: bv32, ceiling: bv32)
    requires Below(rest, Half(ceiling))
    ensures Below(Xor(Word(bit), Up(rest)), ceiling)
  {
  }

  /** The word of fewer than 32 bits leaves the top bit free. */
  lemma {:induction false} PackFits(bits: seq<bool>)
    requires |bits| <= 31
    ensures Below(Pack(bits), Ceiling(|bits|)) && Below(Pack(bits), 0x8000_0000)
  {
    if bits == [] {
      CeilingOfNone();
    } else {
      PackFits(bits[1..]);
      PackBelow(bits[0], Pack(bits[1..]), Ceiling(|bits|));
      hide Xor, Up, Word, Half, Below;
    }
    UnderCeiling(Pack(bits), |bits|);
  }

  lemma PackSplits(a: bool, p: bv32, b: bool, q: bv32)
    requires Below(p, 0x8000_0000) && Below(q, 0x8000_0000)
    requires Xor(Word(a), Up(p)) == Xor(Word(b), Up(q))
    ensures a == b && p == q
  {
  }

  lemma {:induction false} PackInjective(a: seq<bool>, b: seq<bool>)
    requires |a| == |b| <= 32 && Pack(a) == Pack(b)
    ensures a == b
  {
    if a != [] {
      PackFits(a[1..]);
      PackFits(b[1..]);
      PackSplits(a[0], Pack(a[1..]), b[0], Pack(b[1..]));
      PackInjective(a[1..], b[1..]);
      assert a == [a[0]] + a[1..] && b == [b[0]] + b[1..];
      hide Xor, Up, Word, Below;
    }
  }

  /** Up to 32 bits fed in turn are their word fed at once. */
  lemma {:induction false} WindowAtOnce(crc: bv32, bits: seq<bool>)
    requires |bits| <= 32
    ensures FoldBits(crc, bits) == Turns(Xor(crc, Pack(bits)), |bits|)
    decreases bits
  {
    if bits == [] {
      XorSelf(crc);
    } else {
      PackFits(bits[1..]);
      TurnAhead(crc, Word(bits[0]), Pack(bits[1..]));
      WindowAtOnce(Turn(Xor(crc, Word(bits[0]))), bits[1..]);
      hide Turn, Xor, Word, Up;
    }
  }

  lemma {:induction false} TurnsInjective(x: bv32, y: bv32, n: nat)
    requires Turns(x, n) == Turns(y, n)
    ensures x == y
    decreases n
  {
    hide Turn;
    if n > 0 {
      TurnsInjective(Turn(x), Turn(y), n - 1);
      TurnIsInjective(x, y);
    }
  }

  /** Two different windows of at most 32 bits leave different registers, whatever follows. */
  lemma BurstBits(crc: bv32, a: seq<bool>, b: seq<bool>, tail: seq<bool>)
    requires |a| == |b| <= 32 && a != b
    ensures FoldBits(crc, a + tail) != FoldBits(crc, b + tail)
  {
    FoldBitsConcat(crc, a, tail);
    FoldBitsConcat(crc, b, tail);
    if FoldBits(crc, a + tail) == FoldBits(crc, b + tail) {
      FoldBitsInjective(FoldBits(crc, a), FoldBits(crc, b), tail);
      WindowAtOnce(crc, a);
      WindowAtOnce(crc, b);
      TurnsInjective(Xor(crc, Pack(a)), Xor(crc, Pack(b)), |a|);
      XorCancelsLeft(crc, Pack(a), Pack(b));
      PackInjective(a, b);
    }
  }

  lemma {:induction false} BitsOfInjective(a: bv8, b: bv8, n: nat)
    requires BitsOf(a, n) == BitsOf(b, n)
    ensures Drop(a, n) == Drop(b, n) ==> a == b
    decreases n
  {
    if n > 0 {
      assert BitsOf(a, n)[0] == BitsOf(b, n)[0];
      assert BitsOf(a, n)[1..] == BitsOf(a >> 1, n - 1) && BitsOf(b, n)[1..] == BitsOf(b >> 1, n - 1);
      BitsOfInjective(a >> 1, b >> 1, n - 1);
      SameHalves(a, b);
    }
  }

  lemma SameHalves(a: bv8, b: bv8)
    ensures a >> 1 == b >> 1 && (a & 1 == 1 <==> b & 1 == 1) ==> a == b
  {
  }

  lemma {:induction false} BitsInjective(x: seq<bv8>, y: seq<bv8>)
    requires |x| == |y| && Bits(x) == Bits(y)
    ensures x == y
  {
    if x != [] {
      assert Bits(x)[..8] == BitsOf(x[0], 8) && Bits(y)[..8] == BitsOf(y[0], 8);
      assert Bits(x)[8..] == Bits(x[1..]) && Bits(y)[8..] == Bits(y[1..]);
      BitsOfInjective(x[0], y[0], 8);
      DropAll(x[0]);
      DropAll(y[0]);
      BitsInjective(x[1..], y[1..]);
      assert x == [x[0]] + x[1..] && y == [y[0]] + y[1..];
    }
  }

  /** Two bit strings that agree outside a window, cut around it. */
  lemma SplitWindow(x: seq<bool>, y: seq<bool>, lo: nat)
    returns (p: seq<bool>, a: seq<bool>, b: seq<bool>, t: seq<bool>)
    requires |x| == |y| && forall i | 0 <= i < |x| && !(lo <= i < lo + 32) :: x[i] == y[i]
    ensures x == p + (a + t) && y == p + (b + t) && |a| == |b| <= 32
  {
    var from := if lo <= |x| then lo else |x|;
    var to := if lo + 32 <= |x| then lo + 32 else |x|;
    p, a, b, t := x[..from], x[from..to], y[from..to], x[to..];
  }

  lemma CrcTellsFold(x: seq<bv8>, y: seq<bv8>)
    ensures Crc(x) == Crc(y) ==> Fold(ONES, x) == Fold(ONES, y)
  {
    if Crc(x) == Crc(y) {
      XorCancels(Fold(ONES, x), Fold(ONES, y), ONES);
    }
  }

  /**
   * Every error burst of at most 32 bits is detected: two different buffers of any
   * one length whose bits agree outside 32 consecutive places have different CRCs.
   */
  lemma BurstDetected(x: seq<bv8>, y: seq<bv8>, lo: nat)
    requires |x| == |y| && x != y
    requires forall i | 0 <= i < 8 * |x| && !(lo <= i < lo + 32) :: Bits(x)[i] == Bits(y)[i]
    ensures Crc(x) != Crc(y)
  {
    hide *;
    var p, a, b, t := SplitWindow(Bits(x), Bits(y), lo);
    if a == b {
      BitsInjective(x, y);
    }
    FoldBitsConcat(ONES, p, a + t);
    FoldBitsConcat(ONES, p, b + t);
    BurstBits(FoldBits(ONES, p), a, b, t);
    FoldAsBits(ONES, x);
    FoldAsBits(ONES, y);
    CrcTellsFold(x, y);
  }

  lemma {:induction false} BitsConcat(x: seq<bv8>, y: seq<bv8>)
    ensures Bits(x + y) == Bits(x) + Bits(y)
  {
    if x == [] {
      assert x + y == y;
    } else {
      assert (x + y)[1..] == x[1..] + y;
      BitsConcat(x[1..], y);
      assert BitsOf(x[0], 8) + (Bits(x[1..]) + Bits(y)) == (BitsOf(x[0], 8) + Bits(x[1..])) + Bits(y);
    }
  }

  /** In particular, any corruption of at most four consecutive bytes. */
  lemma FourBytesDetected(p: seq<bv8>, a: seq<bv8>, b: seq<bv8>, t: seq<bv8>)
    requires |a| == |b| <= 4 && a != b
    ensures Crc(p + a + t) != Crc(p + b + t)
  {
    BitsConcat(p + a, t);
    BitsConcat(p, a);
    BitsConcat(p + b, t);
    BitsConcat(p, b);
    assert (p + a + t)[|p|..|p| + |a|] == a && (p + b + t)[|p|..|p| + |b|] == b;
    BurstDetected(p + a + t, p + b + t, 8 * |p|);
  }

  /**
   * The generator of section 8 of RFC 1952: bit 31 - e is set exactly for the powers
   * e = 26, 23, 22, 16, 12, 11, 10, 8, 7, 5, 4, 2, 1 and 0.
   */
  lemma PolynomialIsStandard()
    ensures POLYNOMIAL ==
            0x20 | 0x100 | 0x200 | 0x8000 | 0x80000
            | 0x100000 | 0x200000 | 0x800000 | 0x1000000 | 0x4000000
            | 0x8000000 | 0x20000000 | 0x40000000 | 0x80000000
  {
  }

  /** The usual check value: the CRC of "123456789". */
  lemma CheckValue()
    ensures Crc([0x31, 0x32, 0x33, 0x34, 0x35, 0x36, 0x37, 0x38, 0x39]) == 0xCBF4_3926
  {
    assert FoldByte(0xFFFFFFFF, 0x31) == 0x7C231048;
    assert FoldByte(0x7C231048, 0x32) == 0xB0ACBB32;
    assert FoldByte(0xB0ACBB32, 0x33) == 0x77B79C2D;
    assert FoldByte(0x77B79C2D, 0x34) == 0x641C1F5C;
    assert FoldByte(0x641C1F5C, 0x35) == 0x340AC5E3;
    assert FoldByte(0x340AC5E3, 0x36) == 0xF68D2C9E;
    assert FoldByte(0xF68D2C9E, 0x37) == 0xAFFC9660;
    assert FoldByte(0xAFFC9660, 0x38) == 0x651F2550;
    assert FoldByte(0x651F2550, 0x39) == 0x340BC6D9;
  }
}
