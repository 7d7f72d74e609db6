/** The C reference's bitwise operators on unsigned integers, and 32-bit windows of a bit stream. */
module BitOps {
  import opened Arith
  import opened Bits

  function BitAnd(x: nat, y: nat): nat
    decreases x
  {
    if x == 0 || y == 0 then 0 else 2 * BitAnd(x / 2, y / 2) + (if x % 2 == 1 && y % 2 == 1 then 1 else 0)
  }

  function BitOr(x: nat, y: nat): nat
    decreases x + y
  {
    if x == 0 then y else if y == 0 then x
    else 2 * BitOr(x / 2, y / 2) + (if x % 2 == 1 || y % 2 == 1 then 1 else 0)
  }

  const W: nat := 0x1_0000_0000

  lemma Pow2Table()
    ensures Pow2(12) == 4096 && Pow2(13) == 8192 && Pow2(14) == 16384 && Pow2(15) == 32768
    ensures Pow2(17) == 131072 && Pow2(18) == 262144 && Pow2(19) == 524288 && Pow2(20) == 1048576
    ensures Pow2(22) == 4194304 && Pow2(21) == 2097152 && Pow2(23) == 8388608
    ensures Pow2(24) == 16777216 && Pow2(25) == 33554432 && Pow2(26) == 67108864
    ensures Pow2(27) == 134217728 && Pow2(28) == 268435456 && Pow2(29) == 536870912 && Pow2(30) == 1073741824
    ensures Pow2(31) == 2147483648 && Pow2(32) == W && Pow2(10) == 1024 && Pow2(9) == 512
  {
  }

  lemma HalveDivMod(x: nat, p: nat)
    requires p > 0
    ensures x / (2 * p) == x / 2 / p && x % (2 * p) == 2 * (x / 2 % p) + x % 2
  {
    var q, r := x / 2 / p, x / 2 % p;
    Euclid(x / 2, p);
    MulDouble(q, p);
    DivMod(q, 2 * p, 2 * r + x % 2);
  }

  lemma AndUnfold(x: nat, y: nat)
    ensures BitAnd(x, y)
            == if x == 0 || y == 0 then 0 else 2 * BitAnd(x / 2, y / 2) + (if x % 2 == 1 && y % 2 == 1 then 1 else 0)
  {
  }

  lemma AndOdd(x: nat, z: nat)
    ensures BitAnd(x, 2 * z + 1) == 2 * BitAnd(x / 2, z) + x % 2
  {
    hide BitAnd;
    AndUnfold(x, 2 * z + 1);
    AndUnfold(0, z);
    assert (2 * z + 1) / 2 == z && (2 * z + 1) % 2 == 1;
  }

  lemma {:induction false} AndLow(x: nat, k: nat)
    ensures BitAnd(x, Pow2(k) - 1) == x % Pow2(k)
    decreases k
  {
    if k > 0 {
      AndLow(x / 2, k - 1);
      HalveDivMod(x, Pow2(k - 1));
      AndOdd(x, Pow2(k - 1) - 1);
    }
  }

  lemma {:induction false} AndHigh(x: nat, y: nat, m: nat, z: nat)
    requires z == y * Pow2(m)
    ensures BitAnd(x, z) == BitAnd(Quot(x, Pow2(m)), y) * Pow2(m)
    decreases m
  {
    hide BitAnd;
    if m == 0 {
      assert z == y && x / Pow2(0) == x;
    } else {
      var p := Pow2(m - 1);
      MulDouble(y, p);
      assert z / 2 == y * p;
      AndHigh(x / 2, y, m - 1, z / 2);
      HalveDivMod(x, p);
      MulDouble(BitAnd(x / 2 / p, y), p);
      AndEven(x, z / 2);
    }
  }

  lemma AndEven(x: nat, z: nat)
    ensures BitAnd(x, 2 * z) == 2 * BitAnd(x / 2, z)
  {
    hide BitAnd;
    AndUnfold(x, 2 * z);
    AndUnfold(x / 2, 0);
    AndUnfold(0, z);
    assert 2 * z / 2 == z && 2 * z % 2 == 0;
  }

  lemma {:induction false} OrDisjoint(a: nat, n: nat, b: nat)
    requires b < Pow2(n)
    ensures BitOr(a * Pow2(n), b) == a * Pow2(n) + b
    decreases n
  {
    if n > 0 && a > 0 {
      var p := Pow2(n - 1);
      MulDouble(a, p);
      OrDisjoint(a, n - 1, b / 2);
      OrEven(a * p, b);
    }
  }

  lemma OrEven(x: nat, b: nat)
    ensures x == 0 || BitOr(2 * x, b) == 2 * BitOr(x, b / 2) + b % 2
  {
  }

  // ---- Windows of the stream ------------------------------------------------------

  /** `k` stream bits at the top of a 32-bit word: shifting right by 32 - n leaves the first `n` of them. */
  lemma TopBits(data: seq<byte>, p: nat, k: nat, n: nat)
    requires n <= k <= 32
    ensures Quot(Times(Val(data, p, k), Pow2(32 - k)), Pow2(32 - n)) == Val(data, p, n)
  {
    hide Pow2, Val;
    var hi, lo := Val(data, p, n), Val(data, p + n, k - n);
    ValSplit(data, p, n, k - n);
    Pow2Add(k - n, 32 - k);
    Scale(hi, Pow2(k - n), lo, Pow2(32 - k));
    DivMod(hi, Pow2(32 - n), lo * Pow2(32 - k));
  }

  lemma Scale(hi: nat, a: nat, lo: nat, b: nat)
    requires lo < a && b > 0
    ensures (hi * a + lo) * b == hi * (a * b) + lo * b
    ensures lo * b < a * b
  {
    MulLe(b, lo + 1, a);
    MulSucc(b, lo);
    Distribute(hi * a, lo, b);
    Assoc(hi, a, b);
  }

  /** ... and shifting left by `n`, modulo 2^32, drops them. */
  lemma ShiftOut(data: seq<byte>, p: nat, k: nat, n: nat)
    requires n <= k <= 32
    ensures Times(Times(Val(data, p, k), Pow2(32 - k)), Pow2(n)) % W == Val(data, p + n, k - n) * Pow2(32 - k + n)
  {
    hide Pow2, Val;
    var hi, lo := Val(data, p, n), Val(data, p + n, k - n);
    ValSplit(data, p, n, k - n);
    Pow2Add(32 - k, n);
    Pow2Add(k - n, 32 - k + n);
    Pow2Of32();
    ScaleMod(Val(data, p, k), hi, lo, Pow2(k - n), Pow2(32 - k), Pow2(n), Pow2(32 - k + n), W);
  }

  lemma Pow2Of32()
    ensures Pow2(32) == W
  {
    Pow2Table();
  }

  lemma ScaleMod(v: nat, hi: nat, lo: nat, a: nat, b: nat, c: nat, up: nat, w: nat)
    requires v == hi * a + lo && lo < a && up > 0 && b * c == up && a * up == w
    ensures Times(Times(v, b), c) % w == lo * up
  {
    Assoc(v, b, c);
    Scale(hi, a, lo, up);
    DivMod(hi, w, Times(lo, up));
  }

  lemma ByteVal(data: seq<byte>, i: nat)
    ensures Val(data, 8 * i, 8) == if i < |data| then data[i] else 0
  {
    hide Val, BitAt;
    var p := 8 * i;
    ValStep(data, p, 0); ValStep(data, p, 1); ValStep(data, p, 2); ValStep(data, p, 3);
    ValStep(data, p, 4); ValStep(data, p, 5); ValStep(data, p, 6); ValStep(data, p, 7);
    BitInByte(data, i, 0); BitInByte(data, i, 1); BitInByte(data, i, 2); BitInByte(data, i, 3);
    BitInByte(data, i, 4); BitInByte(data, i, 5); BitInByte(data, i, 6); BitInByte(data, i, 7);
    assert Val(data, p, 0) == 0 by { ValNone(data, p); }
    if i < |data| {
      ByteFromBits(data[i]);
    }
  }

  lemma ValNone(data: seq<byte>, p: nat)
    ensures Val(data, p, 0) == 0
  {
  }

  lemma BitInByte(data: seq<byte>, i: nat, r: nat)
    requires r < 8
    ensures BitAt(data, 8 * i + r) == if i < |data| then ByteBit(data[i], r) else 0
  {
  }

  lemma ByteFromBits(b: byte)
    ensures b == 128 * ByteBit(b, 0) + 64 * ByteBit(b, 1) + 32 * ByteBit(b, 2) + 16 * ByteBit(b, 3)
                 + 8 * ByteBit(b, 4) + 4 * ByteBit(b, 5) + 2 * ByteBit(b, 6) + ByteBit(b, 7)
  {
    var b1, b2, b3 := b / 2, b / 4, b / 8;
    var b4, b5, b6, b7 := b / 16, b / 32, b / 64, b / 128;
    Halves(b, b1, b2);
    Halves(b2, b3, b4);
    Halves(b4, b5, b6);
    assert b6 == 2 * b7 + b6 % 2;
  }

  lemma Halves(x: nat, y: nat, z: nat)
    requires y == x / 2 && z == x / 4
    ensures x == 2 * y + x % 2 && y == 2 * z + y % 2
  {
  }
}
