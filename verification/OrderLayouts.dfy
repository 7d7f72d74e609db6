/**
 The wire layout of the nine rendered order types, written out byte by byte: which flag bit announces which bytes,
 where they stand and what value they give. Independent of the decoder's tables. Sections 2.2.2.2.1.1.2.1 to
 2.2.2.2.1.1.2.15 of MS-RDPEGDI.
 */
module OrderLayouts {
  import opened Options
  import opened Bits
  import opened BitOps
  import opened Rects
  import opened Pictures
  import opened Fields
  import opened Orders

  // ---- Bytes ---------------------------------------------------------------------------

  /** Byte `i`, zero past the end. */
  function At(d: seq<byte>, i: nat): byte {
    if i < |d| then d[i] else 0
  }

  function U16(d: seq<byte>, i: nat): nat {
    At(d, i) as int + 256 * (At(d, i + 1) as int)
  }

  /** Two's complement. */
  function I16(d: seq<byte>, i: nat): int {
    if U16(d, i) < 32768 then U16(d, i) else U16(d, i) - 65536
  }

  function I8(d: seq<byte>, i: nat): int {
    if At(d, i) < 128 then At(d, i) else At(d, i) as int - 256
  }

  function Rgb24(d: seq<byte>, i: nat): Rgba {
    Rgba(At(d, i), At(d, i + 1), At(d, i + 2), 255)
  }

  /** Length of the data behind its length byte at `i`: as declared, or what is left. */
  function DataLength(d: seq<byte>, i: nat): nat {
    if i + 1 + At(d, i) as int <= |d| then At(d, i) as int else if i < |d| then |d| - i - 1 else 0
  }

  lemma DataFits(d: seq<byte>, i: nat)
    ensures i < |d| ==> i + 1 + DataLength(d, i) <= |d|
  {
  }

  function Data(d: seq<byte>, i: nat): seq<byte> {
    if i + 1 + DataLength(d, i) <= |d| then d[i + 1..i + 1 + DataLength(d, i)] else []
  }

  predicate Flag(f: nat, weight: nat)
    requires weight > 0
  {
    f / weight % 2 == 1
  }

  /** The position behind a field of `width` bytes at `i`, present if its flag is set. */
  function Past(f: nat, weight: nat, i: nat, width: nat): nat
    requires weight > 0
  {
    if Flag(f, weight) then i + width else i
  }

  function If(f: nat, weight: nat, sent: Value, kept: Value): Value
    requires weight > 0
  {
    if Flag(f, weight) then sent else kept
  }

  /** The order is accepted with these values, which become the sticky ones of its type; no clip. */
  function Reads(st: Sticky, t: byte, vals: seq<Value>, next: nat): (Sticky, Result<Taken<Primary>>) {
    (Sticky(st.bounds, Some(t), st.fields[t := vals]), Ok(Taken(Primary(t, vals, None), next)))
  }

  // ---- The decoder against positions ------------------------------------------------------

  function KindWidth(k: Kind, d: seq<byte>, at: nat): nat {
    match k
    case Coord => 2
    case Byte => 1
    case SByte => 1
    case Word => 2
    case Rgb => 3
    case Pad7 => 7
    case Blob => 1 + DataLength(d, at)
  }

  function KindValue(k: Kind, prev: Value, d: seq<byte>, at: nat): Value {
    match k
    case Coord => Num(I16(d, at))
    case Byte => Num(At(d, at))
    case SByte => Num(I8(d, at))
    case Word => Num(U16(d, at))
    case Rgb => Colour(Rgb24(d, at))
    case Pad7 => prev
    case Blob => Text(Data(d, at))
  }

  lemma ReadAbsolute(k: Kind, prev: Value, d: seq<byte>, at: nat)
    requires at + KindWidth(k, d, at) <= |d|
    ensures ReadKind(k, prev, false, d, at) == Ok(Taken(KindValue(k, prev, d, at), at + KindWidth(k, d, at)))
  {
  }

  /** A coordinate sent as a delta is one signed byte added to the value before. */
  lemma DeltaIsSignedByte(n: int, d: seq<byte>, at: nat)
    requires at < |d| && -2147483648 <= n + I8(d, at) <= 2147483647
    ensures ReadKind(Coord, Num(n), true, d, at) == Ok(Taken(Num(n + I8(d, at)), at + 1))
  {
  }

  /** `at[k]` is the position of field `k` under these flags. */
  predicate Places(l: Layout, flags: nat, d: seq<byte>, at: seq<nat>) {
    && |at| == |l| + 1
    && at[|l|] <= |d|
    && forall k {:trigger l[k]} :: 0 <= k < |l| ==>
         at[k + 1] == Behind(flags, l[k].bit, at[k], KindWidth(l[k].kind, d, at[k]))
  }

  function Behind(flags: nat, bit: nat, i: nat, width: nat): nat {
    if BitSet(flags, bit) then i + width else i
  }

  lemma {:induction false} PlacesRise(l: Layout, flags: nat, d: seq<byte>, at: seq<nat>, k: nat)
    requires Places(l, flags, d, at) && k <= |l|
    ensures at[k] <= |d|
    decreases |l| - k
  {
    hide KindWidth, BitSet;
    if k < |l| {
      PlacesRise(l, flags, d, at, k + 1);
      assert l[k] == l[k];
    }
  }

  lemma {:induction false} PlacedFields(l: Layout, n: nat, prev: seq<Value>, flags: nat, d: seq<byte>, at: seq<nat>)
    requires Places(l, flags, d, at) && n <= |l| == |prev|
    requires at[0] <= |d|
    ensures var s := Upto(l, n, prev, flags, false, d, at[0]);
            && s.error.None? && s.pos == at[n] && |s.vals| == |l|
            && forall k :: 0 <= k < |l| ==>
                 s.vals[k] == if k < n && BitSet(flags, l[k].bit) then KindValue(l[k].kind, prev[k], d, at[k])
                              else prev[k]
    decreases n
  {
    hide KindWidth, KindValue, BitSet, ReadKind;
    if n > 0 {
      PlacedFields(l, n - 1, prev, flags, d, at);
      NextSlot(l, n - 1, prev, flags, false, d, at[0]);
      PlacesRise(l, flags, d, at, n);
      if BitSet(flags, l[n - 1].bit) {
        ReadAbsolute(l[n - 1].kind, prev[n - 1], d, at[n - 1]);
      }
    }
  }

  /** Field flags of one, two and three bytes. */
  function FlagsAt(d: seq<byte>, i: nat, n: nat): nat {
    if n == 1 then At(d, i) as int
    else if n == 2 then U16(d, i)
    else U16(d, i) + 65536 * At(d, i + 2) as int
  }

  lemma FlagsTaken(d: seq<byte>, i: nat, n: nat)
    requires 1 <= n <= 3 && i + n <= |d|
    ensures TakeFlags(d, i, n) == Ok(Taken(FlagsAt(d, i, n), i + n))
  {
    LastFlag(d, i + n - 1);
    if n >= 2 {
      assert TakeFlags(d, i + n - 2, 2) == Ok(Taken(U16(d, i + n - 2), i + n));
    }
  }

  lemma LastFlag(d: seq<byte>, i: nat)
    requires i < |d|
    ensures TakeFlags(d, i, 1) == Ok(Taken(At(d, i) as int, i + 1))
  {
    assert TakeFlags(d, i + 1, 0) == Ok(Taken(0, i + 1));
  }

  /** Control byte 0x09: a standard order with its type, without bounds, all flag bytes present, absolute. */
  lemma PlainControl(n: nat)
    ensures Orders.Has(0x09, TS_TYPE_CHANGE) && !Orders.Has(0x09, TS_BOUNDS)
    ensures !Orders.Has(0x09, TS_DELTA_COORDINATES) && FlagBytes(0x09, n) == n
  {
  }

  /** Positions `at` and values `vals` are those of the layout under flags `f`, over sticky values `v`. */
  predicate Describes(l: Layout, f: nat, v: seq<Value>, d: seq<byte>, at: seq<nat>, vals: seq<Value>) {
    && |l| == |v| == |vals| && Places(l, f, d, at)
    && forall k {:trigger l[k]} :: 0 <= k < |l| ==>
         vals[k] == if BitSet(f, l[k].bit) then KindValue(l[k].kind, v[k], d, at[k]) else v[k]
  }

  /** An order with its type byte at `pos`, `n` flag bytes behind it and fields where `at` says. */
  lemma PlacedOrder(st: Sticky, t: byte, n: nat, l: Layout, d: seq<byte>, pos: nat, at: seq<nat>, vals: seq<Value>)
    requires st.Valid() && LayoutOf(t) == Some(l) && FieldBytes(t) == Some(n) && 1 <= n <= 3
    requires pos + 1 + n <= |d| && d[pos] == t && |at| == |l| + 1 && at[0] == pos + 1 + n
    requires t in st.fields && Describes(l, FlagsAt(d, pos + 1, n), st.fields[t], d, at, vals)
    ensures TakePrimary(st, 0x09, d, pos) == Reads(st, t, vals, at[|l|])
  {
    hide KindWidth, KindValue, BitSet, ReadKind, LayoutOf, FieldBytes, TakeFlags, Upto, FlagsAt, Orders.Has, FlagBytes,
         Places;
    PlainControl(n);
    FlagsTaken(d, pos + 1, n);
    var f := FlagsAt(d, pos + 1, n);
    PlacedFields(l, |l|, st.fields[t], f, d, at);
    assert Upto(l, |l|, st.fields[t], f, false, d, at[0]).vals == vals;
  }

  lemma FlagIs(f: nat, bit: nat, weight: nat)
    requires weight == Pow2(bit)
    ensures weight > 0 && (BitSet(f, bit) <==> Flag(f, weight))
  {
  }

  /** Flags by weight and by number. */
  lemma FlagBits(f: nat)
    ensures forall bit: nat {:trigger BitSet(f, bit)} :: BitSet(f, bit) <==> Flag(f, Pow2(bit))
    ensures forall bit: nat, i: nat, width: nat :: Behind(f, bit, i, width) == Past(f, Pow2(bit), i, width)
  {
    hide BitSet, Flag;
    forall bit: nat
      ensures BitSet(f, bit) <==> Flag(f, Pow2(bit))
    {
      FlagIs(f, bit, Pow2(bit));
    }
    forall bit: nat, i: nat, width: nat
      ensures Behind(f, bit, i, width) == Past(f, Pow2(bit), i, width)
    {
      FlagIs(f, bit, Pow2(bit));
    }
  }

  // ---- DSTBLT ----

  /** Where the fields of DSTBLT begin, the first at `p0`, under field flags `f`. */
  function DstBltAt(f: nat, p0: nat): (r: seq<nat>)
    ensures |r| == 6
  {
    var p1 := Past(f, 0x1, p0, 2); var p2 := Past(f, 0x2, p1, 2); var p3 := Past(f, 0x4, p2, 2);
    var p4 := Past(f, 0x8, p3, 2); var p5 := Past(f, 0x10, p4, 1);
    [p0, p1, p2, p3, p4, p5]
  }

  /** Destination rectangle and raster operation. */
  function DstBltValues(f: nat, v: seq<Value>, d: seq<byte>, p: seq<nat>): (r: seq<Value>)
    requires |v| == 5 && |p| == 6
    ensures |r| == 5
  {
    [If(f, 0x1, Num(I16(d, p[0])), v[0]), If(f, 0x2, Num(I16(d, p[1])), v[1]), If(f, 0x4, Num(I16(d, p[2])), v[2]),
     If(f, 0x8, Num(I16(d, p[3])), v[3]), If(f, 0x10, Num(At(d, p[4])), v[4])]
  }

  lemma DstBltDescribed(f: nat, v: seq<Value>, d: seq<byte>, p0: nat)
    requires |v| == 5 && DstBltAt(f, p0)[5] <= |d|
    ensures LayoutOf(0x00).Some?
    ensures var p := DstBltAt(f, p0);
            p[0] == p0 && Describes(LayoutOf(0x00).value, f, v, d, p, DstBltValues(f, v, d, p))
  {
    hide BitSet, Flag, Past, Behind, Pow2, I16, U16, At, I8, Rgb24;
    Pow2Small();
    Pow2Table();
    FlagBits(f);
  }

  /** DSTBLT, under any field flags. */
  lemma DstBltFields(st: Sticky, d: seq<byte>, pos: nat, f: nat)
    requires st.Valid() && pos + 2 <= |d| && d[pos] == 0x00
    requires f == At(d, pos + 1) as int
    ensures 0x00 in st.fields && |st.fields[0x00]| == 5
    ensures var p := DstBltAt(f, pos + 2);
            p[5] <= |d| ==>
              TakePrimary(st, 0x09, d, pos) == Reads(st, 0x00, DstBltValues(f, st.fields[0x00], d, p), p[5])
  {
    hide DstBltAt, DstBltValues, Describes, TakePrimary;
    assert LayoutOf(0x00).Some? && |LayoutOf(0x00).value| == 5;
    var p := DstBltAt(f, pos + 2);
    if p[5] <= |d| {
      DstBltDescribed(f, st.fields[0x00], d, pos + 2);
      PlacedOrder(st, 0x00, 1, LayoutOf(0x00).value, d, pos, p, DstBltValues(f, st.fields[0x00], d, p));
    }
  }

  /** DSTBLT with every field sent. */
  lemma DstBltWhole(st: Sticky, d: seq<byte>, pos: nat)
    requires st.Valid() && pos + 11 <= |d| && d[pos] == 0x00
    requires d[pos + 1] == 0x1F
    ensures 0x00 in st.fields && |st.fields[0x00]| == 5
    ensures TakePrimary(st, 0x09, d, pos) == Reads(st, 0x00, [
              Num(I16(d, pos + 2)), Num(I16(d, pos + 4)), Num(I16(d, pos + 6)), Num(I16(d, pos + 8)),
              Num(At(d, pos + 10))],
              pos + 11)
  {
    hide TakePrimary, LayoutOf, Sticky.Valid, Reads;
    DstBltFields(st, d, pos, 0x1F);
  }

  // ---- PATBLT ----

  /** Where the fields of PATBLT begin, the first at `p0`, under field flags `f`. */
  function PatBltAt(f: nat, p0: nat): (r: seq<nat>)
    ensures |r| == 13
  {
    var p1 := Past(f, 0x1, p0, 2); var p2 := Past(f, 0x2, p1, 2); var p3 := Past(f, 0x4, p2, 2);
    var p4 := Past(f, 0x8, p3, 2); var p5 := Past(f, 0x10, p4, 1); var p6 := Past(f, 0x20, p5, 3);
    var p7 := Past(f, 0x40, p6, 3); var p8 := Past(f, 0x80, p7, 1); var p9 := Past(f, 0x100, p8, 1);
    var p10 := Past(f, 0x200, p9, 1); var p11 := Past(f, 0x400, p10, 1); var p12 := Past(f, 0x800, p11, 7);
    [p0, p1, p2, p3, p4, p5, p6, p7, p8, p9, p10, p11, p12]
  }

  /** Rectangle, raster operation, back and fore colour, brush. */
  function PatBltValues(f: nat, v: seq<Value>, d: seq<byte>, p: seq<nat>): (r: seq<Value>)
    requires |v| == 12 && |p| == 13
    ensures |r| == 12
  {
    [If(f, 0x1, Num(I16(d, p[0])), v[0]), If(f, 0x2, Num(I16(d, p[1])), v[1]), If(f, 0x4, Num(I16(d, p[2])), v[2]),
     If(f, 0x8, Num(I16(d, p[3])), v[3]), If(f, 0x10, Num(At(d, p[4])), v[4]),
     If(f, 0x20, Colour(Rgb24(d, p[5])), v[5]), If(f, 0x40, Colour(Rgb24(d, p[6])), v[6]),
     If(f, 0x80, Num(I8(d, p[7])), v[7]), If(f, 0x100, Num(I8(d, p[8])), v[8]),
     If(f, 0x200, Num(At(d, p[9])), v[9]), If(f, 0x400, Num(At(d, p[10])), v[10]), If(f, 0x800, v[11], v[11])]
  }

  lemma PatBltDescribed(f: nat, v: seq<Value>, d: seq<byte>, p0: nat)
    requires |v| == 12 && PatBltAt(f, p0)[12] <= |d|
    ensures LayoutOf(0x01).Some?
    ensures var p := PatBltAt(f, p0);
            p[0] == p0 && Describes(LayoutOf(0x01).value, f, v, d, p, PatBltValues(f, v, d, p))
  {
    hide BitSet, Flag, Past, Behind, Pow2, I16, U16, At, I8, Rgb24;
    Pow2Small();
    Pow2Table();
    FlagBits(f);
  }

  /** PATBLT, under any field flags. */
  lemma PatBltFields(st: Sticky, d: seq<byte>, pos: nat, f: nat)
    requires st.Valid() && pos + 3 <= |d| && d[pos] == 0x01
    requires f == U16(d, pos + 1)
    ensures 0x01 in st.fields && |st.fields[0x01]| == 12
    ensures var p := PatBltAt(f, pos + 3);
            p[12] <= |d| ==>
              TakePrimary(st, 0x09, d, pos) == Reads(st, 0x01, PatBltValues(f, st.fields[0x01], d, p), p[12])
  {
    hide PatBltAt, PatBltValues, Describes, TakePrimary;
    assert LayoutOf(0x01).Some? && |LayoutOf(0x01).value| == 12;
    var p := PatBltAt(f, pos + 3);
    if p[12] <= |d| {
      PatBltDescribed(f, st.fields[0x01], d, pos + 3);
      PlacedOrder(st, 0x01, 2, LayoutOf(0x01).value, d, pos, p, PatBltValues(f, st.fields[0x01], d, p));
    }
  }

  /** PATBLT with every field sent. */
  lemma PatBltWhole(st: Sticky, d: seq<byte>, pos: nat)
    requires st.Valid() && pos + 29 <= |d| && d[pos] == 0x01
    requires d[pos + 1] == 0xFF && d[pos + 2] == 0x0F
    ensures 0x01 in st.fields && |st.fields[0x01]| == 12
    ensures TakePrimary(st, 0x09, d, pos) == Reads(st, 0x01, [
              Num(I16(d, pos + 3)), Num(I16(d, pos + 5)), Num(I16(d, pos + 7)), Num(I16(d, pos + 9)),
              Num(At(d, pos + 11)), Colour(Rgb24(d, pos + 12)), Colour(Rgb24(d, pos + 15)), Num(I8(d, pos + 18)),
              Num(I8(d, pos + 19)), Num(At(d, pos + 20)), Num(At(d, pos + 21)), st.fields[0x01][11]],
              pos + 29)
  {
    hide TakePrimary, LayoutOf, Sticky.Valid, Reads;
    PatBltFields(st, d, pos, 0xFFF);
  }

  // ---- SCRBLT ----

  /** Where the fields of SCRBLT begin, the first at `p0`, under field flags `f`. */
  function ScrBltAt(f: nat, p0: nat): (r: seq<nat>)
    ensures |r| == 8
  {
    var p1 := Past(f, 0x1, p0, 2); var p2 := Past(f, 0x2, p1, 2); var p3 := Past(f, 0x4, p2, 2);
    var p4 := Past(f, 0x8, p3, 2); var p5 := Past(f, 0x10, p4, 1); var p6 := Past(f, 0x20, p5, 2);
    var p7 := Past(f, 0x40, p6, 2);
    [p0, p1, p2, p3, p4, p5, p6, p7]
  }

  /** Rectangle, raster operation, source point. */
  function ScrBltValues(f: nat, v: seq<Value>, d: seq<byte>, p: seq<nat>): (r: seq<Value>)
    requires |v| == 7 && |p| == 8
    ensures |r| == 7
  {
    [If(f, 0x1, Num(I16(d, p[0])), v[0]), If(f, 0x2, Num(I16(d, p[1])), v[1]), If(f, 0x4, Num(I16(d, p[2])), v[2]),
     If(f, 0x8, Num(I16(d, p[3])), v[3]), If(f, 0x10, Num(At(d, p[4])), v[4]),
     If(f, 0x20, Num(I16(d, p[5])), v[5]), If(f, 0x40, Num(I16(d, p[6])), v[6])]
  }

  lemma ScrBltDescribed(f: nat, v: seq<Value>, d: seq<byte>, p0: nat)
    requires |v| == 7 && ScrBltAt(f, p0)[7] <= |d|
    ensures LayoutOf(0x02).Some?
    ensures var p := ScrBltAt(f, p0);
            p[0] == p0 && Describes(LayoutOf(0x02).value, f, v, d, p, ScrBltValues(f, v, d, p))
  {
    hide BitSet, Flag, Past, Behind, Pow2, I16, U16, At, I8, Rgb24;
    Pow2Small();
    Pow2Table();
    FlagBits(f);
  }

  /** SCRBLT, under any field flags. */
  lemma ScrBltFields(st: Sticky, d: seq<byte>, pos: nat, f: nat)
    requires st.Valid() && pos + 2 <= |d| && d[pos] == 0x02
    requires f == At(d, pos + 1) as int
    ensures 0x02 in st.fields && |st.fields[0x02]| == 7
    ensures var p := ScrBltAt(f, pos + 2);
            p[7] <= |d| ==>
              TakePrimary(st, 0x09, d, pos) == Reads(st, 0x02, ScrBltValues(f, st.fields[0x02], d, p), p[7])
  {
    hide ScrBltAt, ScrBltValues, Describes, TakePrimary;
    assert LayoutOf(0x02).Some? && |LayoutOf(0x02).value| == 7;
    var p := ScrBltAt(f, pos + 2);
    if p[7] <= |d| {
      ScrBltDescribed(f, st.fields[0x02], d, pos + 2);
      PlacedOrder(st, 0x02, 1, LayoutOf(0x02).value, d, pos, p, ScrBltValues(f, st.fields[0x02], d, p));
    }
  }

  /** SCRBLT with every field sent. */
  lemma ScrBltWhole(st: Sticky, d: seq<byte>, pos: nat)
    requires st.Valid() && pos + 15 <= |d| && d[pos] == 0x02
    requires d[pos + 1] == 0x7F
    ensures 0x02 in st.fields && |st.fields[0x02]| == 7
    ensures TakePrimary(st, 0x09, d, pos) == Reads(st, 0x02, [
              Num(I16(d, pos + 2)), Num(I16(d, pos + 4)), Num(I16(d, pos + 6)), Num(I16(d, pos + 8)),
              Num(At(d, pos + 10)), Num(I16(d, pos + 11)), Num(I16(d, pos + 13))],
              pos + 15)
  {
    hide TakePrimary, LayoutOf, Sticky.Valid, Reads;
    ScrBltFields(st, d, pos, 0x7F);
  }

  // ---- LINE_TO ----

  /** Where the fields of LINE_TO begin, the first at `p0`, under field flags `f`. */
  function LineToAt(f: nat, p0: nat): (r: seq<nat>)
    ensures |r| == 11
  {
    var p1 := Past(f, 0x1, p0, 2); var p2 := Past(f, 0x2, p1, 2); var p3 := Past(f, 0x4, p2, 2);
    var p4 := Past(f, 0x8, p3, 2); var p5 := Past(f, 0x10, p4, 2); var p6 := Past(f, 0x20, p5, 3);
    var p7 := Past(f, 0x40, p6, 1); var p8 := Past(f, 0x80, p7, 1); var p9 := Past(f, 0x100, p8, 1);
    var p10 := Past(f, 0x200, p9, 3);
    [p0, p1, p2, p3, p4, p5, p6, p7, p8, p9, p10]
  }

  /** Back mode, start and end point, back colour, pen. */
  function LineToValues(f: nat, v: seq<Value>, d: seq<byte>, p: seq<nat>): (r: seq<Value>)
    requires |v| == 10 && |p| == 11
    ensures |r| == 10
  {
    [If(f, 0x1, Num(U16(d, p[0])), v[0]), If(f, 0x2, Num(I16(d, p[1])), v[1]), If(f, 0x4, Num(I16(d, p[2])), v[2]),
     If(f, 0x8, Num(I16(d, p[3])), v[3]), If(f, 0x10, Num(I16(d, p[4])), v[4]),
     If(f, 0x20, Colour(Rgb24(d, p[5])), v[5]), If(f, 0x40, Num(At(d, p[6])), v[6]),
     If(f, 0x80, Num(At(d, p[7])), v[7]), If(f, 0x100, Num(At(d, p[8])), v[8]),
     If(f, 0x200, Colour(Rgb24(d, p[9])), v[9])]
  }

  lemma LineToDescribed(f: nat, v: seq<Value>, d: seq<byte>, p0: nat)
    requires |v| == 10 && LineToAt(f, p0)[10] <= |d|
    ensures LayoutOf(0x09).Some?
    ensures var p := LineToAt(f, p0);
            p[0] == p0 && Describes(LayoutOf(0x09).value, f, v, d, p, LineToValues(f, v, d, p))
  {
    hide BitSet, Flag, Past, Behind, Pow2, I16, U16, At, I8, Rgb24;
    Pow2Small();
    Pow2Table();
    FlagBits(f);
  }

  /** LINE_TO, under any field flags. */
  lemma LineToFields(st: Sticky, d: seq<byte>, pos: nat, f: nat)
    requires st.Valid() && pos + 3 <= |d| && d[pos] == 0x09
    requires f == U16(d, pos + 1)
    ensures 0x09 in st.fields && |st.fields[0x09]| == 10
    ensures var p := LineToAt(f, pos + 3);
            p[10] <= |d| ==>
              TakePrimary(st, 0x09, d, pos) == Reads(st, 0x09, LineToValues(f, st.fields[0x09], d, p), p[10])
  {
    hide LineToAt, LineToValues, Describes, TakePrimary;
    assert LayoutOf(0x09).Some? && |LayoutOf(0x09).value| == 10;
    var p := LineToAt(f, pos + 3);
    if p[10] <= |d| {
      LineToDescribed(f, st.fields[0x09], d, pos + 3);
      PlacedOrder(st, 0x09, 2, LayoutOf(0x09).value, d, pos, p, LineToValues(f, st.fields[0x09], d, p));
    }
  }

  /** LINE_TO with every field sent. */
  lemma LineToWhole(st: Sticky, d: seq<byte>, pos: nat)
    requires st.Valid() && pos + 22 <= |d| && d[pos] == 0x09
    requires d[pos + 1] == 0xFF && d[pos + 2] == 0x03
    ensures 0x09 in st.fields && |st.fields[0x09]| == 10
    ensures TakePrimary(st, 0x09, d, pos) == Reads(st, 0x09, [
              Num(U16(d, pos + 3)), Num(I16(d, pos + 5)), Num(I16(d, pos + 7)), Num(I16(d, pos + 9)),
              Num(I16(d, pos + 11)), Colour(Rgb24(d, pos + 13)), Num(At(d, pos + 16)), Num(At(d, pos + 17)),
              Num(At(d, pos + 18)), Colour(Rgb24(d, pos + 19))],
              pos + 22)
  {
    hide TakePrimary, LayoutOf, Sticky.Valid, Reads;
    LineToFields(st, d, pos, 0x3FF);
  }

  // ---- OPAQUE_RECT ----

  /** Where the fields of OPAQUE_RECT begin, the first at `p0`, under field flags `f`. */
  function OpaqueRectAt(f: nat, p0: nat): (r: seq<nat>)
    ensures |r| == 8
  {
    var p1 := Past(f, 0x1, p0, 2); var p2 := Past(f, 0x2, p1, 2); var p3 := Past(f, 0x4, p2, 2);
    var p4 := Past(f, 0x8, p3, 2); var p5 := Past(f, 0x10, p4, 1); var p6 := Past(f, 0x20, p5, 1);
    var p7 := Past(f, 0x40, p6, 1);
    [p0, p1, p2, p3, p4, p5, p6, p7]
  }

  /** Rectangle, then red, green and blue as three fields. */
  function OpaqueRectValues(f: nat, v: seq<Value>, d: seq<byte>, p: seq<nat>): (r: seq<Value>)
    requires |v| == 7 && |p| == 8
    ensures |r| == 7
  {
    [If(f, 0x1, Num(I16(d, p[0])), v[0]), If(f, 0x2, Num(I16(d, p[1])), v[1]), If(f, 0x4, Num(I16(d, p[2])), v[2]),
     If(f, 0x8, Num(I16(d, p[3])), v[3]), If(f, 0x10, Num(At(d, p[4])), v[4]), If(f, 0x20, Num(At(d, p[5])), v[5]),
     If(f, 0x40, Num(At(d, p[6])), v[6])]
  }

  lemma OpaqueRectDescribed(f: nat, v: seq<Value>, d: seq<byte>, p0: nat)
    requires |v| == 7 && OpaqueRectAt(f, p0)[7] <= |d|
    ensures LayoutOf(0x0A).Some?
    ensures var p := OpaqueRectAt(f, p0);
            p[0] == p0 && Describes(LayoutOf(0x0A).value, f, v, d, p, OpaqueRectValues(f, v, d, p))
  {
    hide BitSet, Flag, Past, Behind, Pow2, I16, U16, At, I8, Rgb24;
    Pow2Small();
    Pow2Table();
    FlagBits(f);
  }

  /** OPAQUE_RECT, under any field flags. */
  lemma OpaqueRectFields(st: Sticky, d: seq<byte>, pos: nat, f: nat)
    requires st.Valid() && pos + 2 <= |d| && d[pos] == 0x0A
    requires f == At(d, pos + 1) as int
    ensures 0x0A in st.fields && |st.fields[0x0A]| == 7
    ensures var p := OpaqueRectAt(f, pos + 2);
            p[7] <= |d| ==>
              TakePrimary(st, 0x09, d, pos) == Reads(st, 0x0A, OpaqueRectValues(f, st.fields[0x0A], d, p), p[7])
  {
    hide OpaqueRectAt, OpaqueRectValues, Describes, TakePrimary;
    assert LayoutOf(0x0A).Some? && |LayoutOf(0x0A).value| == 7;
    var p := OpaqueRectAt(f, pos + 2);
    if p[7] <= |d| {
      OpaqueRectDescribed(f, st.fields[0x0A], d, pos + 2);
      PlacedOrder(st, 0x0A, 1, LayoutOf(0x0A).value, d, pos, p, OpaqueRectValues(f, st.fields[0x0A], d, p));
    }
  }

  /** OPAQUE_RECT with every field sent. */
  lemma OpaqueRectWhole(st: Sticky, d: seq<byte>, pos: nat)
    requires st.Valid() && pos + 13 <= |d| && d[pos] == 0x0A
    requires d[pos + 1] == 0x7F
    ensures 0x0A in st.fields && |st.fields[0x0A]| == 7
    ensures TakePrimary(st, 0x09, d, pos) == Reads(st, 0x0A, [
              Num(I16(d, pos + 2)), Num(I16(d, pos + 4)), Num(I16(d, pos + 6)), Num(I16(d, pos + 8)),
              Num(At(d, pos + 10)), Num(At(d, pos + 11)), Num(At(d, pos + 12))],
              pos + 13)
  {
    hide TakePrimary, LayoutOf, Sticky.Valid, Reads;
    OpaqueRectFields(st, d, pos, 0x7F);
  }

  // ---- MEMBLT ----

  /** Where the fields of MEMBLT begin, the first at `p0`, under field flags `f`. */
  function MemBltAt(f: nat, p0: nat): (r: seq<nat>)
    ensures |r| == 10
  {
    var p1 := Past(f, 0x1, p0, 2); var p2 := Past(f, 0x2, p1, 2); var p3 := Past(f, 0x4, p2, 2);
    var p4 := Past(f, 0x8, p3, 2); var p5 := Past(f, 0x10, p4, 2); var p6 := Past(f, 0x20, p5, 1);
    var p7 := Past(f, 0x40, p6, 2); var p8 := Past(f, 0x80, p7, 2); var p9 := Past(f, 0x100, p8, 2);
    [p0, p1, p2, p3, p4, p5, p6, p7, p8, p9]
  }

  /** Cache id, rectangle, raster operation, source point, cache index. */
  function MemBltValues(f: nat, v: seq<Value>, d: seq<byte>, p: seq<nat>): (r: seq<Value>)
    requires |v| == 9 && |p| == 10
    ensures |r| == 9
  {
    [If(f, 0x1, Num(U16(d, p[0])), v[0]), If(f, 0x2, Num(I16(d, p[1])), v[1]), If(f, 0x4, Num(I16(d, p[2])), v[2]),
     If(f, 0x8, Num(I16(d, p[3])), v[3]), If(f, 0x10, Num(I16(d, p[4])), v[4]),
     If(f, 0x20, Num(At(d, p[5])), v[5]), If(f, 0x40, Num(I16(d, p[6])), v[6]),
     If(f, 0x80, Num(I16(d, p[7])), v[7]), If(f, 0x100, Num(U16(d, p[8])), v[8])]
  }

  lemma MemBltDescribed(f: nat, v: seq<Value>, d: seq<byte>, p0: nat)
    requires |v| == 9 && MemBltAt(f, p0)[9] <= |d|
    ensures LayoutOf(0x0D).Some?
    ensures var p := MemBltAt(f, p0);
            p[0] == p0 && Describes(LayoutOf(0x0D).value, f, v, d, p, MemBltValues(f, v, d, p))
  {
    hide BitSet, Flag, Past, Behind, Pow2, I16, U16, At, I8, Rgb24;
    Pow2Small();
    Pow2Table();
    FlagBits(f);
  }

  /** MEMBLT, under any field flags. */
  lemma MemBltFields(st: Sticky, d: seq<byte>, pos: nat, f: nat)
    requires st.Valid() && pos + 3 <= |d| && d[pos] == 0x0D
    requires f == U16(d, pos + 1)
    ensures 0x0D in st.fields && |st.fields[0x0D]| == 9
    ensures var p := MemBltAt(f, pos + 3);
            p[9] <= |d| ==>
              TakePrimary(st, 0x09, d, pos) == Reads(st, 0x0D, MemBltValues(f, st.fields[0x0D], d, p), p[9])
  {
    hide MemBltAt, MemBltValues, Describes, TakePrimary;
    assert LayoutOf(0x0D).Some? && |LayoutOf(0x0D).value| == 9;
    var p := MemBltAt(f, pos + 3);
    if p[9] <= |d| {
      MemBltDescribed(f, st.fields[0x0D], d, pos + 3);
      PlacedOrder(st, 0x0D, 2, LayoutOf(0x0D).value, d, pos, p, MemBltValues(f, st.fields[0x0D], d, p));
    }
  }

  /** MEMBLT with every field sent. */
  lemma MemBltWhole(st: Sticky, d: seq<byte>, pos: nat)
    requires st.Valid() && pos + 20 <= |d| && d[pos] == 0x0D
    requires d[pos + 1] == 0xFF && d[pos + 2] == 0x01
    ensures 0x0D in st.fields && |st.fields[0x0D]| == 9
    ensures TakePrimary(st, 0x09, d, pos) == Reads(st, 0x0D, [
              Num(U16(d, pos + 3)), Num(I16(d, pos + 5)), Num(I16(d, pos + 7)), Num(I16(d, pos + 9)),
              Num(I16(d, pos + 11)), Num(At(d, pos + 13)), Num(I16(d, pos + 14)), Num(I16(d, pos + 16)),
              Num(U16(d, pos + 18))],
              pos + 20)
  {
    hide TakePrimary, LayoutOf, Sticky.Valid, Reads;
    MemBltFields(st, d, pos, 0x1FF);
  }

  // ---- Text orders ----

  lemma AllFlags()
    ensures Flag(0x7FFF, 0x1) && Flag(0x7FFF, 0x2) && Flag(0x7FFF, 0x4) && Flag(0x7FFF, 0x8) &&
            Flag(0x7FFF, 0x10) && Flag(0x7FFF, 0x20) && Flag(0x7FFF, 0x40) && Flag(0x7FFF, 0x80) &&
            Flag(0x7FFF, 0x100) && Flag(0x7FFF, 0x200) && Flag(0x7FFF, 0x400) && Flag(0x7FFF, 0x800) &&
            Flag(0x7FFF, 0x1000) && Flag(0x7FFF, 0x2000) && Flag(0x7FFF, 0x4000)
    ensures Flag(0x3FFFFF, 0x1) && Flag(0x3FFFFF, 0x2) && Flag(0x3FFFFF, 0x4) &&
            Flag(0x3FFFFF, 0x8) && Flag(0x3FFFFF, 0x10) && Flag(0x3FFFFF, 0x20) && Flag(0x3FFFFF, 0x40) &&
            Flag(0x3FFFFF, 0x80) && Flag(0x3FFFFF, 0x100) && Flag(0x3FFFFF, 0x200) && Flag(0x3FFFFF, 0x400) &&
            Flag(0x3FFFFF, 0x800) && Flag(0x3FFFFF, 0x1000) && Flag(0x3FFFFF, 0x2000) && Flag(0x3FFFFF, 0x4000) &&
            Flag(0x3FFFFF, 0x8000) && Flag(0x3FFFFF, 0x10000) && Flag(0x3FFFFF, 0x20000) &&
            Flag(0x3FFFFF, 0x40000) && Flag(0x3FFFFF, 0x80000) && Flag(0x3FFFFF, 0x100000) &&
            Flag(0x3FFFFF, 0x200000)
  {
  }

  // ---- FAST_INDEX and FAST_GLYPH ----

  /** Where the fields of FAST_INDEX and FAST_GLYPH begin, the first at `p0`, under field flags `f`. */
  function FastTextAt(f: nat, d: seq<byte>, p0: nat): (r: seq<nat>)
    ensures |r| == 17
  {
    var p1 := Past(f, 0x1, p0, 1); var p2 := Past(f, 0x2, p1, 1); var p3 := Past(f, 0x2, p2, 1);
    var p4 := Past(f, 0x4, p3, 3); var p5 := Past(f, 0x8, p4, 3); var p6 := Past(f, 0x10, p5, 2);
    var p7 := Past(f, 0x20, p6, 2); var p8 := Past(f, 0x40, p7, 2); var p9 := Past(f, 0x80, p8, 2);
    var p10 := Past(f, 0x100, p9, 2); var p11 := Past(f, 0x200, p10, 2); var p12 := Past(f, 0x400, p11, 2);
    var p13 := Past(f, 0x800, p12, 2); var p14 := Past(f, 0x1000, p13, 2); var p15 := Past(f, 0x2000, p14, 2);
    var p16 := Past(f, 0x4000, p15, 1 + DataLength(d, p15));
    [p0, p1, p2, p3, p4, p5, p6, p7, p8, p9, p10, p11, p12, p13, p14, p15, p16]
  }

  /** Cache id, advance and accelerator under one flag, colours, boxes, pen, data. */
  function FastTextValues(f: nat, v: seq<Value>, d: seq<byte>, p: seq<nat>): (r: seq<Value>)
    requires |v| == 16 && |p| == 17
    ensures |r| == 16
  {
    [If(f, 0x1, Num(At(d, p[0])), v[0]), If(f, 0x2, Num(At(d, p[1])), v[1]), If(f, 0x2, Num(At(d, p[2])), v[2]),
     If(f, 0x4, Colour(Rgb24(d, p[3])), v[3]), If(f, 0x8, Colour(Rgb24(d, p[4])), v[4]),
     If(f, 0x10, Num(I16(d, p[5])), v[5]), If(f, 0x20, Num(I16(d, p[6])), v[6]),
     If(f, 0x40, Num(I16(d, p[7])), v[7]), If(f, 0x80, Num(I16(d, p[8])), v[8]),
     If(f, 0x100, Num(I16(d, p[9])), v[9]), If(f, 0x200, Num(I16(d, p[10])), v[10]),
     If(f, 0x400, Num(I16(d, p[11])), v[11]), If(f, 0x800, Num(I16(d, p[12])), v[12]),
     If(f, 0x1000, Num(I16(d, p[13])), v[13]), If(f, 0x2000, Num(I16(d, p[14])), v[14]),
     If(f, 0x4000, Text(Data(d, p[15])), v[15])]
  }

  lemma FastTextDescribed(t: byte, f: nat, v: seq<Value>, d: seq<byte>, p0: nat)
    requires |v| == 16 && FastTextAt(f, d, p0)[16] <= |d|
    requires t == 0x13 || t == 0x18
    ensures LayoutOf(t).Some?
    ensures var p := FastTextAt(f, d, p0);
            p[0] == p0 && Describes(LayoutOf(t).value, f, v, d, p, FastTextValues(f, v, d, p))
  {
    hide BitSet, Flag, Past, Behind, Pow2, I16, U16, At, I8, Rgb24, FastTextAt, Places, Data, DataLength;
    Pow2Small();
    Pow2Table();
    FlagBits(f);
    FastTextPlaced(t, f, d, p0);
  }

  lemma FastTextPlaced(t: byte, f: nat, d: seq<byte>, p0: nat)
    requires FastTextAt(f, d, p0)[16] <= |d|
    requires t == 0x13 || t == 0x18
    ensures LayoutOf(t).Some? && |LayoutOf(t).value| == 16
    ensures FastTextAt(f, d, p0)[0] == p0 && Places(LayoutOf(t).value, f, d, FastTextAt(f, d, p0))
  {
    hide BitSet, Flag, Past, Behind, Pow2;
    Pow2Small();
    Pow2Table();
    FlagBits(f);
  }

  /** FAST_INDEX and FAST_GLYPH (type 0x13 with three flag bytes, type 0x18 with two), under any field flags. */
  lemma FastTextFields(st: Sticky, t: byte, n: nat, d: seq<byte>, pos: nat, f: nat)
    requires st.Valid() && pos + 1 + n <= |d| && d[pos] == t
    requires (t == 0x13 && n == 3) || (t == 0x18 && n == 2)
    requires f == U16(d, pos + 1) + if n == 3 then 65536 * (At(d, pos + 3) as int) else 0
    ensures t in st.fields && |st.fields[t]| == 16
    ensures var p := FastTextAt(f, d, pos + 1 + n);
            p[16] <= |d| ==>
              TakePrimary(st, 0x09, d, pos) == Reads(st, t, FastTextValues(f, st.fields[t], d, p), p[16])
  {
    hide FastTextAt, FastTextValues, Describes, TakePrimary;
    assert LayoutOf(t).Some? && |LayoutOf(t).value| == 16;
    var p := FastTextAt(f, d, pos + 1 + n);
    if p[16] <= |d| {
      FastTextDescribed(t, f, st.fields[t], d, pos + 1 + n);
      PlacedOrder(st, t, n, LayoutOf(t).value, d, pos, p, FastTextValues(f, st.fields[t], d, p));
    }
  }

  lemma FastTextAllAt(d: seq<byte>, p0: nat)
    ensures FastTextAt(0x7FFF, d, p0) == [
              p0, p0 + 1, p0 + 2, p0 + 3, p0 + 6, p0 + 9, p0 + 11, p0 + 13, p0 + 15, p0 + 17, p0 + 19, p0 + 21,
              p0 + 23, p0 + 25, p0 + 27, p0 + 29, p0 + 30 + DataLength(d, p0 + 29)]
  {
    hide Flag, DataLength;
    AllFlags();
  }

  /** FAST_INDEX with every field sent. */
  lemma FastIndexWhole(st: Sticky, d: seq<byte>, pos: nat)
    requires st.Valid() && pos + 34 <= |d| && d[pos] == 0x13
    requires d[pos + 1] == 0xFF && d[pos + 2] == 0x7F && d[pos + 3] == 0x00
    ensures 0x13 in st.fields && |st.fields[0x13]| == 16
    ensures TakePrimary(st, 0x09, d, pos) == Reads(st, 0x13, [
              Num(At(d, pos + 4)), Num(At(d, pos + 5)), Num(At(d, pos + 6)), Colour(Rgb24(d, pos + 7)),
              Colour(Rgb24(d, pos + 10)), Num(I16(d, pos + 13)), Num(I16(d, pos + 15)), Num(I16(d, pos + 17)),
              Num(I16(d, pos + 19)), Num(I16(d, pos + 21)), Num(I16(d, pos + 23)), Num(I16(d, pos + 25)),
              Num(I16(d, pos + 27)), Num(I16(d, pos + 29)), Num(I16(d, pos + 31)), Text(Data(d, pos + 33))],
              pos + 34 + DataLength(d, pos + 33))
  {
    hide TakePrimary, LayoutOf, Sticky.Valid, Reads, Flag, DataLength;
    AllFlags();
    DataFits(d, pos + 33);
    FastTextAllAt(d, pos + 4);
    hide FastTextAt;
    FastTextFields(st, 0x13, 3, d, pos, 0x7FFF);
  }

  /** FAST_GLYPH with every field sent. */
  lemma FastGlyphWhole(st: Sticky, d: seq<byte>, pos: nat)
    requires st.Valid() && pos + 33 <= |d| && d[pos] == 0x18
    requires d[pos + 1] == 0xFF && d[pos + 2] == 0x7F
    ensures 0x18 in st.fields && |st.fields[0x18]| == 16
    ensures TakePrimary(st, 0x09, d, pos) == Reads(st, 0x18, [
              Num(At(d, pos + 3)), Num(At(d, pos + 4)), Num(At(d, pos + 5)), Colour(Rgb24(d, pos + 6)),
              Colour(Rgb24(d, pos + 9)), Num(I16(d, pos + 12)), Num(I16(d, pos + 14)), Num(I16(d, pos + 16)),
              Num(I16(d, pos + 18)), Num(I16(d, pos + 20)), Num(I16(d, pos + 22)), Num(I16(d, pos + 24)),
              Num(I16(d, pos + 26)), Num(I16(d, pos + 28)), Num(I16(d, pos + 30)), Text(Data(d, pos + 32))],
              pos + 33 + DataLength(d, pos + 32))
  {
    hide TakePrimary, LayoutOf, Sticky.Valid, Reads, Flag, DataLength;
    AllFlags();
    DataFits(d, pos + 32);
    FastTextAllAt(d, pos + 3);
    hide FastTextAt;
    FastTextFields(st, 0x18, 2, d, pos, 0x7FFF);
  }

  // ---- GLYPH_INDEX ----

  /** Where the fields of GLYPH_INDEX begin, the first at `p0`, under field flags `f`. */
  function GlyphIndexAt(f: nat, d: seq<byte>, p0: nat): (r: seq<nat>)
    ensures |r| == 23
  {
    var p1 := Past(f, 0x1, p0, 1); var p2 := Past(f, 0x2, p1, 1); var p3 := Past(f, 0x4, p2, 1);
    var p4 := Past(f, 0x8, p3, 1); var p5 := Past(f, 0x10, p4, 3); var p6 := Past(f, 0x20, p5, 3);
    var p7 := Past(f, 0x40, p6, 2); var p8 := Past(f, 0x80, p7, 2); var p9 := Past(f, 0x100, p8, 2);
    var p10 := Past(f, 0x200, p9, 2); var p11 := Past(f, 0x400, p10, 2); var p12 := Past(f, 0x800, p11, 2);
    var p13 := Past(f, 0x1000, p12, 2); var p14 := Past(f, 0x2000, p13, 2); var p15 := Past(f, 0x4000, p14, 1);
    var p16 := Past(f, 0x8000, p15, 1); var p17 := Past(f, 0x10000, p16, 1); var p18 := Past(f, 0x20000, p17, 1);
    var p19 := Past(f, 0x40000, p18, 7); var p20 := Past(f, 0x80000, p19, 2); var p21 := Past(f, 0x100000, p20, 2);
    var p22 := Past(f, 0x200000, p21, 1 + DataLength(d, p21));
    [p0, p1, p2, p3, p4, p5, p6, p7, p8, p9, p10, p11, p12, p13, p14, p15, p16, p17, p18, p19, p20, p21, p22]
  }

  /** The full text order. */
  function GlyphIndexValues(f: nat, v: seq<Value>, d: seq<byte>, p: seq<nat>): (r: seq<Value>)
    requires |v| == 22 && |p| == 23
    ensures |r| == 22
  {
    [If(f, 0x1, Num(At(d, p[0])), v[0]), If(f, 0x2, Num(At(d, p[1])), v[1]), If(f, 0x4, Num(At(d, p[2])), v[2]),
     If(f, 0x8, Num(At(d, p[3])), v[3]), If(f, 0x10, Colour(Rgb24(d, p[4])), v[4]),
     If(f, 0x20, Colour(Rgb24(d, p[5])), v[5]), If(f, 0x40, Num(I16(d, p[6])), v[6]),
     If(f, 0x80, Num(I16(d, p[7])), v[7]), If(f, 0x100, Num(I16(d, p[8])), v[8]),
     If(f, 0x200, Num(I16(d, p[9])), v[9]), If(f, 0x400, Num(I16(d, p[10])), v[10]),
     If(f, 0x800, Num(I16(d, p[11])), v[11]), If(f, 0x1000, Num(I16(d, p[12])), v[12]),
     If(f, 0x2000, Num(I16(d, p[13])), v[13]), If(f, 0x4000, Num(At(d, p[14])), v[14]),
     If(f, 0x8000, Num(At(d, p[15])), v[15]), If(f, 0x10000, Num(At(d, p[16])), v[16]),
     If(f, 0x20000, Num(At(d, p[17])), v[17]), If(f, 0x40000, v[18], v[18]),
     If(f, 0x80000, Num(I16(d, p[19])), v[19]), If(f, 0x100000, Num(I16(d, p[20])), v[20]),
     If(f, 0x200000, Text(Data(d, p[21])), v[21])]
  }

  lemma GlyphIndexDescribed(f: nat, v: seq<Value>, d: seq<byte>, p0: nat)
    requires |v| == 22 && GlyphIndexAt(f, d, p0)[22] <= |d|
    ensures LayoutOf(0x1B).Some?
    ensures var p := GlyphIndexAt(f, d, p0);
            p[0] == p0 && Describes(LayoutOf(0x1B).value, f, v, d, p, GlyphIndexValues(f, v, d, p))
  {
    hide BitSet, GlyphIndexAt, GlyphIndexValues, Places, KindValue, LayoutOf;
    GlyphIndexPlaced(f, d, p0);
    forall k | 0 <= k < 22
      ensures var s := LayoutOf(0x1B).value[k];
              GlyphIndexValues(f, v, d, GlyphIndexAt(f, d, p0))[k]
              == if BitSet(f, s.bit) then KindValue(s.kind, v[k], d, GlyphIndexAt(f, d, p0)[k]) else v[k]
    {
      if k < 11 {
        GlyphIndexFront(f, v, d, GlyphIndexAt(f, d, p0), k);
      } else {
        GlyphIndexBack(f, v, d, GlyphIndexAt(f, d, p0), k);
      }
    }
  }

  lemma GlyphIndexPlaced(f: nat, d: seq<byte>, p0: nat)
    requires GlyphIndexAt(f, d, p0)[22] <= |d|
    ensures LayoutOf(0x1B).Some? && |LayoutOf(0x1B).value| == 22
    ensures GlyphIndexAt(f, d, p0)[0] == p0 && Places(LayoutOf(0x1B).value, f, d, GlyphIndexAt(f, d, p0))
  {
    hide BitSet, Flag, Past, Behind, Pow2;
    Pow2Small();
    Pow2Table();
    FlagBits(f);
  }

  lemma GlyphIndexFront(f: nat, v: seq<Value>, d: seq<byte>, p: seq<nat>, k: nat)
    requires |v| == 22 && |p| == 23 && k < 11
    ensures var s := LayoutOf(0x1B).value[k];
            GlyphIndexValues(f, v, d, p)[k] == if BitSet(f, s.bit) then KindValue(s.kind, v[k], d, p[k]) else v[k]
  {
    hide BitSet, Flag, Pow2, I16, U16, At, I8, Rgb24, Data, DataLength;
    Pow2Small();
    Pow2Table();
    FlagBits(f);
  }

  lemma GlyphIndexBack(f: nat, v: seq<Value>, d: seq<byte>, p: seq<nat>, k: nat)
    requires |v| == 22 && |p| == 23 && 11 <= k < 22
    ensures var s := LayoutOf(0x1B).value[k];
            GlyphIndexValues(f, v, d, p)[k] == if BitSet(f, s.bit) then KindValue(s.kind, v[k], d, p[k]) else v[k]
  {
    hide BitSet, Flag, Pow2, I16, U16, At, I8, Rgb24, Data, DataLength;
    Pow2Small();
    Pow2Table();
    FlagBits(f);
  }

  /** GLYPH_INDEX, under any field flags. */
  lemma GlyphIndexFields(st: Sticky, d: seq<byte>, pos: nat, f: nat)
    requires st.Valid() && pos + 4 <= |d| && d[pos] == 0x1B
    requires f == U16(d, pos + 1) + 65536 * (At(d, pos + 3) as int)
    ensures 0x1B in st.fields && |st.fields[0x1B]| == 22
    ensures var p := GlyphIndexAt(f, d, pos + 4);
            p[22] <= |d| ==>
              TakePrimary(st, 0x09, d, pos) == Reads(st, 0x1B, GlyphIndexValues(f, st.fields[0x1B], d, p), p[22])
  {
    hide GlyphIndexAt, GlyphIndexValues, Describes, TakePrimary;
    assert LayoutOf(0x1B).Some? && |LayoutOf(0x1B).value| == 22;
    var p := GlyphIndexAt(f, d, pos + 4);
    if p[22] <= |d| {
      GlyphIndexDescribed(f, st.fields[0x1B], d, pos + 4);
      PlacedOrder(st, 0x1B, 3, LayoutOf(0x1B).value, d, pos, p, GlyphIndexValues(f, st.fields[0x1B], d, p));
    }
  }

  lemma GlyphIndexAllAt(d: seq<byte>, p0: nat)
    ensures GlyphIndexAt(0x3FFFFF, d, p0) == [
              p0, p0 + 1, p0 + 2, p0 + 3, p0 + 4, p0 + 7, p0 + 10, p0 + 12, p0 + 14, p0 + 16, p0 + 18, p0 + 20,
              p0 + 22, p0 + 24, p0 + 26, p0 + 27, p0 + 28, p0 + 29, p0 + 30, p0 + 37, p0 + 39, p0 + 41,
              p0 + 42 + DataLength(d, p0 + 41)]
  {
    hide Flag, DataLength;
    AllFlags();
  }

  /** GLYPH_INDEX with every field sent. */
  lemma GlyphIndexWhole(st: Sticky, d: seq<byte>, pos: nat)
    requires st.Valid() && pos + 46 <= |d| && d[pos] == 0x1B
    requires d[pos + 1] == 0xFF && d[pos + 2] == 0xFF && d[pos + 3] == 0x3F
    ensures 0x1B in st.fields && |st.fields[0x1B]| == 22
    ensures TakePrimary(st, 0x09, d, pos) == Reads(st, 0x1B, [
              Num(At(d, pos + 4)), Num(At(d, pos + 5)), Num(At(d, pos + 6)), Num(At(d, pos + 7)),
              Colour(Rgb24(d, pos + 8)), Colour(Rgb24(d, pos + 11)), Num(I16(d, pos + 14)), Num(I16(d, pos + 16)),
              Num(I16(d, pos + 18)), Num(I16(d, pos + 20)), Num(I16(d, pos + 22)), Num(I16(d, pos + 24)),
              Num(I16(d, pos + 26)), Num(I16(d, pos + 28)), Num(At(d, pos + 30)), Num(At(d, pos + 31)),
              Num(At(d, pos + 32)), Num(At(d, pos + 33)), st.fields[0x1B][18], Num(I16(d, pos + 41)),
              Num(I16(d, pos + 43)), Text(Data(d, pos + 45))],
              pos + 46 + DataLength(d, pos + 45))
  {
    hide TakePrimary, LayoutOf, Sticky.Valid, Reads, Flag, DataLength;
    AllFlags();
    DataFits(d, pos + 45);
    GlyphIndexAllAt(d, pos + 4);
    hide GlyphIndexAt;
    GlyphIndexFields(st, d, pos, 0x3FFFFF);
  }
}
