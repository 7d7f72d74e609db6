/**
 Bytes, bits and the big-endian bit streams that the bulk decompressors read.
 Bit operations of the source are written as arithmetic on unbounded integers.
 */
module Bits {
  type byte = x: int | 0 <= x < 256
  type bit = x: int | 0 <= x < 2

  function Pow2(n: nat): (p: nat)
    ensures p > 0
  {
    if n == 0 then 1 else 2 * Pow2(n - 1)
  }

  lemma {:induction false} Pow2Add(a: nat, b: nat)
    ensures Pow2(a + b) == Pow2(a) * Pow2(b)
  {
    if a == 0 {
    } else {
      Pow2Add(a - 1, b);
      assert Pow2(a + b) == 2 * Pow2((a - 1) + b);
    }
  }

  lemma Pow2Small()
    ensures Pow2(0) == 1 && Pow2(1) == 2 && Pow2(2) == 4 && Pow2(3) == 8 && Pow2(4) == 16
    ensures Pow2(5) == 32 && Pow2(6) == 64 && Pow2(7) == 128 && Pow2(8) == 256
    ensures Pow2(11) == 2048 && Pow2(16) == 65536
  {
    assert Pow2(2) == 2 * Pow2(1);
    assert Pow2(4) == 2 * Pow2(3);
    assert Pow2(6) == 2 * Pow2(5);
    assert Pow2(8) == 2 * Pow2(7);
    Pow2Add(8, 3);
    Pow2Add(8, 8);
  }

  lemma {:induction false} Pow2Monotone(a: nat, b: nat)
    requires a <= b
    ensures Pow2(a) <= Pow2(b)
  {
    if a < b {
      Pow2Monotone(a, b - 1);
    }
  }

  /** Little-endian 16-bit numbers. */
  function Le16(n: nat): (s: seq<byte>)
    requires n < 0x1_0000
    ensures |s| == 2
  {
    [n % 256, n / 256]
  }

  function U16At(b: seq<byte>, i: nat): (n: nat)
    requires i + 2 <= |b|
    ensures n < 0x1_0000
  {
    b[i] as int + 256 * (b[i + 1] as int)
  }

  /** Bit `r` of a byte counted from the most significant: `(b >> (7 - r)) & 1`. */
  function ByteBit(b: byte, r: nat): bit
    requires r < 8
  {
    if r == 0 then b / 128 else if r == 1 then b / 64 % 2
    else if r == 2 then b / 32 % 2 else if r == 3 then b / 16 % 2
    else if r == 4 then b / 8 % 2 else if r == 5 then b / 4 % 2
    else if r == 6 then b / 2 % 2 else b % 2
  }

  /** Bit `p` of a byte string, most significant bit of each byte first; zero past the end. */
  function BitAt(data: seq<byte>, p: nat): bit {
    if p / 8 < |data| then ByteBit(data[p / 8], p % 8) else 0
  }

  /** The `n` bits from position `pos`, as a number. */
  function Val(data: seq<byte>, pos: nat, n: nat): (v: nat)
    ensures v < Pow2(n)
  {
    if n == 0 then 0 else 2 * Val(data, pos, n - 1) + BitAt(data, pos + n - 1)
  }

  lemma {:induction false} ValSplit(data: seq<byte>, pos: nat, a: nat, b: nat)
    ensures Val(data, pos, a + b) == Val(data, pos, a) * Pow2(b) + Val(data, pos + a, b)
  {
    if b == 0 {
    } else {
      assert Pow2(b) == 2 * Pow2(b - 1);
      ValSplit(data, pos, a, b - 1);
      ValStep(data, pos, a + (b - 1));
      ValStep(data, pos + a, b - 1);
      DoubleSum(Val(data, pos, a), Pow2(b - 1), Val(data, pos + a, b - 1));
    }
  }

  lemma ValStep(data: seq<byte>, pos: nat, n: nat)
    ensures Val(data, pos, n + 1) == 2 * Val(data, pos, n) + BitAt(data, pos + n)
  {
  }

  lemma DoubleSum(x: int, p: int, y: int)
    ensures 2 * (x * p + y) == x * (2 * p) + 2 * y
  {
  }

  /** The `n`-bit big-endian code of `v`. */
  function BitsOf(v: nat, n: nat): (s: seq<bit>)
    ensures |s| == n
  {
    if n == 0 then [] else BitsOf(v / 2, n - 1) + [v % 2]
  }

  /** The bits `s` occur in `data` from bit `pos` on. */
  ghost predicate Carries(data: seq<byte>, pos: nat, s: seq<bit>) {
    forall i {:trigger s[i]} :: 0 <= i < |s| ==> BitAt(data, pos + i) == s[i]
  }

  lemma CarriesSplit(data: seq<byte>, pos: nat, a: seq<bit>, b: seq<bit>)
    requires Carries(data, pos, a + b)
    ensures Carries(data, pos, a)
    ensures Carries(data, pos + |a|, b)
  {
    forall i | 0 <= i < |a|
      ensures BitAt(data, pos + i) == a[i]
    {
      assert (a + b)[i] == a[i];
    }
    forall i | 0 <= i < |b|
      ensures BitAt(data, pos + |a| + i) == b[i]
    {
      assert (a + b)[|a| + i] == b[i];
      assert BitAt(data, pos + (|a| + i)) == b[i];
    }
  }

  lemma {:induction false} ValOfCode(data: seq<byte>, pos: nat, v: nat, n: nat)
    requires v < Pow2(n)
    requires Carries(data, pos, BitsOf(v, n))
    ensures Val(data, pos, n) == v
  {
    if n == 0 {
    } else {
      CarriesSplit(data, pos, BitsOf(v / 2, n - 1), [v % 2]);
      ValOfCode(data, pos, v / 2, n - 1);
      assert [v % 2][0] == BitAt(data, pos + (n - 1) + 0);
    }
  }

  /** Bit `i` of `s`, zero past the end. */
  function Ext(s: seq<bit>, i: nat): bit {
    if i < |s| then s[i] else 0
  }

  function ByteFrom(s: seq<bit>, p: nat): byte {
    128 * Ext(s, p) + 64 * Ext(s, p + 1) + 32 * Ext(s, p + 2) + 16 * Ext(s, p + 3)
    + 8 * Ext(s, p + 4) + 4 * Ext(s, p + 5) + 2 * Ext(s, p + 6) + Ext(s, p + 7)
  }

  /** The bit string as bytes, zero-padded to a byte boundary. */
  function Pack(s: seq<bit>): (data: seq<byte>)
    ensures |s| <= 8 * |data| < |s| + 8
  {
    seq((|s| + 7) / 8, k requires 0 <= k => ByteFrom(s, 8 * k))
  }

  lemma PackBit(s: seq<bit>, i: nat)
    ensures BitAt(Pack(s), i) == Ext(s, i)
  {
    if i / 8 < |Pack(s)| {
      var p, r := 8 * (i / 8), i % 8;
      assert i == p + r;
      ByteFromBit(s, p, r);
    }
  }

  lemma ByteFromBit(s: seq<bit>, p: nat, r: nat)
    requires r < 8
    ensures ByteBit(ByteFrom(s, p), r) == Ext(s, p + r)
  {
    var hi := 8 * Ext(s, p) + 4 * Ext(s, p + 1) + 2 * Ext(s, p + 2) + Ext(s, p + 3);
    var lo := 8 * Ext(s, p + 4) + 4 * Ext(s, p + 5) + 2 * Ext(s, p + 6) + Ext(s, p + 7);
    NibbleBits(hi, Ext(s, p), Ext(s, p + 1), Ext(s, p + 2), Ext(s, p + 3));
    NibbleBits(lo, Ext(s, p + 4), Ext(s, p + 5), Ext(s, p + 6), Ext(s, p + 7));
    ByteNibbles(ByteFrom(s, p), hi, lo);
  }

  lemma NibbleBits(x: nat, b3: bit, b2: bit, b1: bit, b0: bit)
    requires x == 8 * b3 + 4 * b2 + 2 * b1 + b0
    ensures x / 8 == b3 && x / 4 % 2 == b2 && x / 2 % 2 == b1 && x % 2 == b0 && x < 16
  {
    assert x / 4 == 2 * b3 + b2;
    assert x / 2 == 4 * b3 + 2 * b2 + b1;
  }

  lemma ByteNibbles(b: byte, hi: nat, lo: nat)
    requires b == 16 * hi + lo && lo < 16
    ensures b / 128 == hi / 8 && b / 64 % 2 == hi / 4 % 2 && b / 32 % 2 == hi / 2 % 2 && b / 16 % 2 == hi % 2
    ensures b / 8 % 2 == lo / 8 % 2 && b / 4 % 2 == lo / 4 % 2 && b / 2 % 2 == lo / 2 % 2 && b % 2 == lo % 2
  {
    HighNibble(b, hi, lo);
    LowNibble(b, hi, lo);
  }

  lemma HighNibble(b: byte, hi: nat, lo: nat)
    requires b == 16 * hi + lo && lo < 16
    ensures b / 128 == hi / 8 && b / 64 % 2 == hi / 4 % 2 && b / 32 % 2 == hi / 2 % 2 && b / 16 % 2 == hi % 2
  {
    assert b / 16 == hi;
  }

  lemma LowNibble(b: byte, hi: nat, lo: nat)
    requires b == 16 * hi + lo && lo < 16
    ensures b / 8 % 2 == lo / 8 % 2 && b / 4 % 2 == lo / 4 % 2 && b / 2 % 2 == lo / 2 % 2 && b % 2 == lo % 2
  {
    assert b / 8 == 2 * hi + lo / 8;
    assert b / 4 == 4 * hi + lo / 4;
    assert b / 2 == 8 * hi + lo / 2;
  }

  lemma EightBits(f: int, b7: bit, b6: bit, b5: bit, b4: bit, b3: bit, b2: bit, b1: bit, b0: bit)
    requires f == 128 * b7 + 64 * b6 + 32 * b5 + 16 * b4 + 8 * b3 + 4 * b2 + 2 * b1 + b0
    ensures 0 <= f < 256
    ensures f / 128 % 2 == b7 && f / 64 % 2 == b6 && f / 32 % 2 == b5 && f / 16 % 2 == b4
    ensures f / 8 % 2 == b3 && f / 4 % 2 == b2 && f / 2 % 2 == b1 && f / 1 % 2 == b0
  {
    var hi, lo := 8 * b7 + 4 * b6 + 2 * b5 + b4, 8 * b3 + 4 * b2 + 2 * b1 + b0;
    NibbleBits(hi, b7, b6, b5, b4);
    NibbleBits(lo, b3, b2, b1, b0);
    ByteNibbles(f, hi, lo);
  }

  lemma PackCarries(s: seq<bit>)
    ensures Carries(Pack(s), 0, s)
  {
    forall i | 0 <= i < |s|
      ensures BitAt(Pack(s), 0 + i) == s[i]
    {
      PackBit(s, i);
    }
  }
}
