/**
 The reference decompressor of experiments/mppc_ref.c: the same bit language read through a
 32-bit accumulator and prefetch word, and the proof that it agrees with `Mppc`.
 */
module MppcReference {
  import opened Options
  import opened Arith
  import opened Bits
  import opened BitOps
  import opened Mppc

  // ---- The accumulator reader --------------------------------------------------

  class BitStream {
    const buffer: seq<byte>
    var pointer: nat      // byte index of the accumulator's word
    var position: nat     // bits consumed
    var offset: nat       // bits consumed since the last prefetch
    var prefetch: nat
    var accumulator: nat

    /** The accumulator holds the next 32 bits, the prefetch word the unread part of the 32 after its word. */
    ghost predicate Synced()
      reads this
    {
      && offset < 32
      && position == 8 * pointer + offset
      && accumulator == Val(buffer, position, 32)
      && prefetch == Val(buffer, position + 32, 32 - offset) * Pow2(offset)
    }

    constructor Attach(buffer: seq<byte>)
      ensures this.buffer == buffer && Synced() && position == 0
    {
      this.buffer := buffer;
      pointer, position, offset, prefetch, accumulator := 0, 0, 0, 0, 0;
      new;
      Fetch();
    }

    method Prefetch()
      modifies this`prefetch
      ensures prefetch == Val(buffer, 8 * pointer + 32, 32)
    {
      prefetch := WordFrom(buffer, pointer + 4);
      WordVal(buffer, pointer + 4);
    }

    method Fetch()
      requires offset == 0 && position == 8 * pointer
      modifies this`accumulator, this`prefetch
      ensures Synced()
    {
      accumulator := WordFrom(buffer, pointer);
      WordVal(buffer, pointer);
      Prefetch();
      assert Pow2(0) == 1;
    }

    method Shift(n: nat)
      requires Synced() && n < 32
      modifies this
      ensures Synced() && position == old(position) + n
    {
      hide Val, Pow2, BitOr, Masked;
      if n == 0 {
        return;
      }
      ghost var pos, o := position, offset;
      Pow2Table();
      AccumulatorShift(buffer, pos, n);
      PrefetchShift(buffer, pos + 32, o, n);
      accumulator := accumulator * Pow2(n) % W;
      position := position + n;
      offset := offset + n;
      accumulator := BitOr(accumulator, Masked(prefetch, n));
      prefetch := prefetch * Pow2(n) % W;
      if offset < 32 {
        AccumulatorFull(buffer, pos, n);
      } else {
        offset := offset - 32;
        pointer := pointer + 4;
        Prefetch();
        assert 8 * pointer + 32 == pos + 32 + (32 - o);
        PrefetchWhole(buffer, 8 * pointer + 32);
        if offset > 0 {
          AccumulatorRefill(buffer, pos, n, offset);
          PrefetchShift(buffer, 8 * pointer + 32, 0, offset);
          assert pos + 32 + n - offset == 8 * pointer + 32;
          accumulator := BitOr(accumulator, Masked(prefetch, offset));
          prefetch := prefetch * Pow2(offset) % W;
        } else {
          AccumulatorFull(buffer, pos, n);
        }
      }
    }
  }

  /** `(word >> (32 - n)) & ((1 << n) - 1)`. */
  function Masked(word: nat, n: nat): nat
    requires n <= 32
  {
    BitAnd(Quot(word, Pow2(32 - n)), Pow2(n) - 1)
  }

  /** Four bytes as a big-endian word, zero past the capacity. */
  function WordFrom(buffer: seq<byte>, i: nat): nat {
    var w := if i < |buffer| then BitOr(0, buffer[i] as int * 0x100_0000) else 0;
    var w := if i + 1 < |buffer| then BitOr(w, buffer[i + 1] as int * 0x1_0000) else w;
    var w := if i + 2 < |buffer| then BitOr(w, buffer[i + 2] as int * 0x100) else w;
    if i + 3 < |buffer| then BitOr(w, buffer[i + 3]) else w
  }

  lemma WordVal(buffer: seq<byte>, i: nat)
    ensures WordFrom(buffer, i) == Val(buffer, 8 * i, 32)
  {
    hide Val, BitOr;
    Pow2Small();
    Pow2Table();
    var p := 8 * i;
    ByteVal(buffer, i); ByteVal(buffer, i + 1); ByteVal(buffer, i + 2); ByteVal(buffer, i + 3);
    ValSplit(buffer, p, 8, 8);
    ValSplit(buffer, p, 16, 8);
    ValSplit(buffer, p, 24, 8);
    var a, b, c := Val(buffer, p, 8), Val(buffer, p, 16), Val(buffer, p, 24);
    if i + 1 < |buffer| { OrDisjoint(a, 24, buffer[i + 1] as int * 0x1_0000); }
    if i + 2 < |buffer| { OrDisjoint(b, 16, buffer[i + 2] as int * 0x100); }
    if i + 3 < |buffer| { OrDisjoint(c, 8, buffer[i + 3]); }
    if i < |buffer| { OrZero(buffer[i] as int * 0x100_0000); }
  }

  lemma OrZero(x: nat)
    ensures BitOr(0, x) == x
  {
  }

  lemma AccumulatorShift(buffer: seq<byte>, p: nat, n: nat)
    requires 0 < n < 32
    ensures Val(buffer, p, 32) * Pow2(n) % W == Val(buffer, p + n, 32 - n) * Pow2(n)
  {
    hide Val;
    ShiftOut(buffer, p, 32, n);
    assert Pow2(0) == 1;
  }

  /** What the masked prefetch contributes, and what stays in it. */
  lemma PrefetchShift(buffer: seq<byte>, q: nat, o: nat, n: nat)
    requires o < 32 && 0 < n < 32
    ensures var v := Times(Val(buffer, q, 32 - o), Pow2(o));
            && Masked(v, n)
               == (if o + n <= 32 then Val(buffer, q, n) else Val(buffer, q, 32 - o) * Pow2(o + n - 32))
            && (o + n <= 32 ==> v * Pow2(n) % W == Val(buffer, q + n, 32 - o - n) * Pow2(o + n))
  {
    hide Val, Pow2;
    var k := 32 - o;
    var v := Times(Val(buffer, q, k), Pow2(o));
    AndLow(Quot(v, Pow2(32 - n)), n);
    if o + n <= 32 {
      TopBits(buffer, q, k, n);
      ShiftOut(buffer, q, k, n);
      SmallMod(Val(buffer, q, n), Pow2(n));
    } else {
      var m := o + n - 32;
      Pow2Add(m, 32 - n);
      Assoc(Val(buffer, q, k), Pow2(m), Pow2(32 - n));
      DivMod(Val(buffer, q, k) * Pow2(m), Pow2(32 - n), 0);
      Pow2Add(k, m);
      Scale(0, Pow2(k), Val(buffer, q, k), Pow2(m));
      SmallMod(Val(buffer, q, k) * Pow2(m), Pow2(n));
    }
  }

  lemma SmallMod(x: nat, d: nat)
    requires x < d
    ensures x % d == x
  {
  }

  lemma PrefetchWhole(buffer: seq<byte>, q: nat)
    ensures Val(buffer, q, 32) == Val(buffer, q, 32 - 0) * Pow2(0)
  {
  }

  /** All `n` bits came from the old prefetch word. */
  lemma AccumulatorFull(buffer: seq<byte>, p: nat, n: nat)
    requires 0 < n < 32
    ensures BitOr(Val(buffer, p + n, 32 - n) * Pow2(n), Val(buffer, p + 32, n)) == Val(buffer, p + n, 32)
  {
    hide Val, BitOr;
    OrDisjoint(Val(buffer, p + n, 32 - n), n, Val(buffer, p + 32, n));
    ValSplit(buffer, p + n, 32 - n, n);
  }

  /** The last `m` bits came from the freshly loaded word. */
  lemma AccumulatorRefill(buffer: seq<byte>, p: nat, n: nat, m: nat)
    requires 0 < m < n < 32
    ensures var old' := Val(buffer, p + n, 32 - n) * Pow2(n);
            BitOr(BitOr(old', Val(buffer, p + 32, n - m) * Pow2(m)), Val(buffer, p + 32 + n - m, m))
                == Val(buffer, p + n, 32)
  {
    hide Val, BitOr, Pow2;
    var a, b, c := Val(buffer, p + n, 32 - n), Val(buffer, p + 32, n - m), Val(buffer, p + 32 + n - m, m);
    Pow2Add(n - m, m);
    Scale(0, Pow2(n - m), b, Pow2(m));
    OrDisjoint(a, n, b * Pow2(m));
    Assoc(a, Pow2(n - m), Pow2(m));
    Distribute(a * Pow2(n - m), b, Pow2(m));
    OrDisjoint(a * Pow2(n - m) + b, m, c);
    ValSplit(buffer, p + n, 32 - n, n - m);
    ValSplit(buffer, p + n, 32 - m, m);
  }

  // ---- Tokens as the reference reads them -----------------------------------------

  /** `x >> k`, given d = 2^k. */
  function Shr(x: nat, d: nat): nat
    requires d > 0
  {
    x / d
  }

  function RefDistance(acc: nat): Option<Read<nat>> {
    if BitAnd(acc, 0xF800_0000) == 0xF800_0000 then Some(Read(BitAnd(Shr(acc, 0x20_0000), 0x3F), 11))
    else if BitAnd(acc, 0xF800_0000) == 0xF000_0000 then Some(Read(BitAnd(Shr(acc, 0x8_0000), 0xFF) + 64, 13))
    else if BitAnd(acc, 0xF000_0000) == 0xE000_0000 then Some(Read(BitAnd(Shr(acc, 0x2_0000), 0x7FF) + 320, 15))
    else if BitAnd(acc, 0xE000_0000) == 0xC000_0000 then Some(Read(BitAnd(Shr(acc, 0x2000), 0xFFFF) + 2368, 19))
    else None
  }

  function RefLength(acc: nat): Option<Read<nat>> {
    if BitAnd(acc, 0x8000_0000) == 0 then Some(Read(3, 1))
    else if BitAnd(acc, 0xC0000000) == 0x80000000 then Some(Read(BitAnd(Shr(acc, 0x10000000), 0x3) + 0x4, 4))
    else if BitAnd(acc, 0xE0000000) == 0xC0000000 then Some(Read(BitAnd(Shr(acc, 0x4000000), 0x7) + 0x8, 6))
    else if BitAnd(acc, 0xF0000000) == 0xE0000000 then Some(Read(BitAnd(Shr(acc, 0x1000000), 0xF) + 0x10, 8))
    else if BitAnd(acc, 0xF8000000) == 0xF0000000 then Some(Read(BitAnd(Shr(acc, 0x400000), 0x1F) + 0x20, 10))
    else if BitAnd(acc, 0xFC000000) == 0xF8000000 then Some(Read(BitAnd(Shr(acc, 0x100000), 0x3F) + 0x40, 12))
    else if BitAnd(acc, 0xFE000000) == 0xFC000000 then Some(Read(BitAnd(Shr(acc, 0x40000), 0x7F) + 0x80, 14))
    else if BitAnd(acc, 0xFF000000) == 0xFE000000 then Some(Read(BitAnd(Shr(acc, 0x10000), 0xFF) + 0x100, 16))
    else RefLongLength(acc)
  }

  function RefLongLength(acc: nat): Option<Read<nat>> {
    if BitAnd(acc, 0xFF800000) == 0xFF000000 then Some(Read(BitAnd(Shr(acc, 0x4000), 0x1FF) + 0x200, 18))
    else if BitAnd(acc, 0xFFC00000) == 0xFF800000 then Some(Read(BitAnd(Shr(acc, 0x1000), 0x3FF) + 0x400, 20))
    else if BitAnd(acc, 0xFFE00000) == 0xFFC00000 then Some(Read(BitAnd(Shr(acc, 0x400), 0x7FF) + 0x800, 22))
    else if BitAnd(acc, 0xFFF00000) == 0xFFE00000 then Some(Read(BitAnd(Shr(acc, 0x100), 0xFFF) + 0x1000, 24))
    else if BitAnd(acc, 0xFFF80000) == 0xFFF00000 then Some(Read(BitAnd(Shr(acc, 0x40), 0x1FFF) + 0x2000, 26))
    else if BitAnd(acc, 0xFFFC0000) == 0xFFF80000 then Some(Read(BitAnd(Shr(acc, 0x10), 0x3FFF) + 0x4000, 28))
    else if BitAnd(acc, 0xFFFE0000) == 0xFFFC0000 then Some(Read(BitAnd(Shr(acc, 0x4), 0x7FFF) + 0x8000, 30))
    else None
  }

  function RefLiteral(acc: nat): Option<Read<nat>> {
    if BitAnd(acc, 0x8000_0000) == 0 then Some(Read(BitAnd(acc, 0x7F00_0000) / 0x100_0000, 8))
    else if BitAnd(acc, 0xC000_0000) == 0x8000_0000 then Some(Read(BitAnd(acc, 0x3F80_0000) / 0x80_0000 + 0x80, 9))
    else None
  }

  lemma MaskTop(data: seq<byte>, p: nat, k: nat, mask: nat)
    requires k <= 32 && mask == (Pow2(k) - 1) * Pow2(32 - k)
    ensures BitAnd(Val(data, p, 32), mask) == Val(data, p, k) * Pow2(32 - k)
  {
    hide Val, Pow2, BitAnd;
    var x := Val(data, p, 32);
    assert Pow2(0) == 1 by { Pow2Small(); }
    TopBits(data, p, 32, k);
    AndHigh(x, Pow2(k) - 1, 32 - k, mask);
    AndLow(x / Pow2(32 - k), k);
    SmallMod(Val(data, p, k), Pow2(k));
  }

  lemma MaskField(data: seq<byte>, p: nat, k: nat, f: nat)
    requires k + f <= 32
    ensures BitAnd(Shr(Val(data, p, 32), Pow2(32 - k - f)), Pow2(f) - 1) == Val(data, p + k, f)
  {
    hide Val, Pow2, BitAnd;
    assert Pow2(0) == 1 by { Pow2Small(); }
    TopBits(data, p, 32, k + f);
    ValSplit(data, p, k, f);
    AndLow(Val(data, p, k + f), f);
    DivMod(Val(data, p, k), Pow2(f), Val(data, p + k, f));
  }

  lemma {:induction false} LeadingOnesBits(data: seq<byte>, p: nat, n: nat)
    requires n <= 30
    ensures var k := LeadingOnes(data, p, n);
            && (forall q {:trigger BitAt(data, q)} :: p + n <= q < p + k ==> BitAt(data, q) == 1)
            && (k < 30 ==> BitAt(data, p + k) == 0)
    decreases 30 - n
  {
    if n < 30 && BitAt(data, p + n) == 1 {
      LeadingOnesBits(data, p, n + 1);
    }
  }

  lemma {:induction false} OnesPrefix(data: seq<byte>, p: nat, n: nat)
    requires n <= 30
    ensures Val(data, p, n) == Pow2(n) - 1 <==> LeadingOnes(data, p, 0) >= n
    decreases n
  {
    if n > 0 {
      hide LeadingOnes;
      OnesPrefix(data, p, n - 1);
      LeadingOnesBits(data, p, 0);
      ValStep(data, p, n - 1);
    }
  }

  /** Row `k` of the length table applies exactly when the run of ones has length k - 1, and reads the same value. */
  lemma LengthRow(data: seq<byte>, p: nat, k: nat, mask: nat, pattern: nat, shift: nat, field: nat)
    requires 2 <= k <= 15
    requires mask == (Pow2(k) - 1) * Pow2(32 - k) && pattern == (Pow2(k) - 2) * Pow2(32 - k)
    requires shift == Pow2(32 - 2 * k) && field == Pow2(k) - 1
    ensures BitAnd(Val(data, p, 32), mask) == pattern <==> LeadingOnes(data, p, 0) == k - 1
    ensures LeadingOnes(data, p, 0) == k - 1 ==>
              LengthAt(data, p) == Read(BitAnd(Shr(Val(data, p, 32), shift), field) + Pow2(k), 2 * k)
  {
    hide Val, Pow2, BitAnd, LeadingOnes, Shr, BitAt;
    MaskTop(data, p, k, mask);
    MaskField(data, p, k, k);
    OnesPrefix(data, p, k - 1);
    OnesPrefix(data, p, k);
    ValStep(data, p, k - 1);
    assert Pow2(k) == 2 * Pow2(k - 1) by { Pow2Add(1, k - 1); Pow2Small(); }
    SameFactor(Val(data, p, k), Pow2(k) - 2, Pow2(32 - k));
  }

  lemma SameFactor(a: int, b: int, f: nat)
    requires f > 0
    ensures a * f == b * f <==> a == b
  {
    if a < b { Monotone(a, b, f); } else if b < a { Monotone(b, a, f); }
  }

  lemma Monotone(a: int, b: int, f: nat)
    requires a < b && f > 0
    ensures a * f < b * f
  {
    Distribute(a, b - a, f);
    MulLe(f, 1, b - a);
  }

  lemma RefLengthIs(data: seq<byte>, p: nat)
    ensures RefLength(Val(data, p, 32)) ==
            if LeadingOnes(data, p, 0) <= 14 then Some(LengthAt(data, p)) else None
  {
    hide Val, BitAnd, Pow2, LeadingOnes, RefLongLength;
    Pow2Small();
    Pow2Table();
    MaskTop(data, p, 1, 0x8000_0000);
    OnesPrefix(data, p, 1);
    LengthRow(data, p, 2, 0xC0000000, 0x80000000, 0x10000000, 0x3);
    LengthRow(data, p, 3, 0xE0000000, 0xC0000000, 0x4000000, 0x7);
    LengthRow(data, p, 4, 0xF0000000, 0xE0000000, 0x1000000, 0xF);
    LengthRow(data, p, 5, 0xF8000000, 0xF0000000, 0x400000, 0x1F);
    LengthRow(data, p, 6, 0xFC000000, 0xF8000000, 0x100000, 0x3F);
    LengthRow(data, p, 7, 0xFE000000, 0xFC000000, 0x40000, 0x7F);
    LengthRow(data, p, 8, 0xFF000000, 0xFE000000, 0x10000, 0xFF);
    if LeadingOnes(data, p, 0) >= 8 {
      RefLongLengthIs(data, p);
    }
  }

  lemma RefLongLengthIs(data: seq<byte>, p: nat)
    requires LeadingOnes(data, p, 0) >= 8
    ensures RefLongLength(Val(data, p, 32)) ==
            if LeadingOnes(data, p, 0) <= 14 then Some(LengthAt(data, p)) else None
  {
    hide Val, BitAnd, Pow2, LeadingOnes;
    Pow2Small();
    Pow2Table();
    LengthRow(data, p, 9, 0xFF800000, 0xFF000000, 0x4000, 0x1FF);
    LengthRow(data, p, 10, 0xFFC00000, 0xFF800000, 0x1000, 0x3FF);
    LengthRow(data, p, 11, 0xFFE00000, 0xFFC00000, 0x400, 0x7FF);
    LengthRow(data, p, 12, 0xFFF00000, 0xFFE00000, 0x100, 0xFFF);
    LengthRow(data, p, 13, 0xFFF80000, 0xFFF00000, 0x40, 0x1FFF);
    LengthRow(data, p, 14, 0xFFFC0000, 0xFFF80000, 0x10, 0x3FFF);
    LengthRow(data, p, 15, 0xFFFE0000, 0xFFFC0000, 0x4, 0x7FFF);
  }
}
