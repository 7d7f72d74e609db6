/**
 The field encoding shared by all primary drawing orders: a cursor over the order bytes, and sticky
 fields that are read only when their flag is set, absolutely or as deltas. Section 2.2.2.2.1.1.2 of MS-RDPEGDI.
 */
module Fields {
  import opened Options
  import opened Bits
  import opened Rects
  import opened Pictures

  datatype OrderError =
    | UnexpectedEof(needed: nat, have: nat)
    | UnsupportedOrderType(orderType: byte)
    | UnsupportedSecondaryOrder(orderType: byte)
    | NoOrderType(control: byte)
    | Malformed(what: string)

  datatype Result<+T> = Ok(value: T) | Err(error: OrderError) {
    predicate IsFailure() { Err? }

    function PropagateFailure<U>(): Result<U>
      requires Err?
    {
      Err(error)
    }

    function Extract(): T
      requires Ok?
    {
      value
    }
  }

  /** A value together with the position behind it. */
  datatype Taken<+T> = Taken(v: T, next: nat)

  function Eof(d: seq<byte>, pos: nat, n: nat): OrderError
    requires pos <= |d|
  {
    UnexpectedEof(n, |d| - pos)
  }

  function TakeBytes(d: seq<byte>, pos: nat, n: nat): Result<Taken<seq<byte>>>
    requires pos <= |d|
  {
    if |d| - pos < n then Err(Eof(d, pos, n)) else Ok(Taken(d[pos..pos + n], pos + n))
  }

  function TakeU8(d: seq<byte>, pos: nat): Result<Taken<byte>>
    requires pos <= |d|
  {
    if |d| - pos < 1 then Err(Eof(d, pos, 1)) else Ok(Taken(d[pos], pos + 1))
  }

  function TakeU16(d: seq<byte>, pos: nat): Result<Taken<nat>>
    requires pos <= |d|
  {
    if |d| - pos < 2 then Err(Eof(d, pos, 2)) else Ok(Taken(d[pos] as int + 256 * (d[pos + 1] as int), pos + 2))
  }

  function TakeColour(d: seq<byte>, pos: nat): (r: Result<Taken<Rgba>>)
    requires pos <= |d|
    ensures r.Ok? ==> pos <= r.value.next <= |d|
  {
    var r :- TakeU8(d, pos);
    var g :- TakeU8(d, r.next);
    var b :- TakeU8(d, g.next);
    Ok(Taken(Rgba(r.v, g.v, b.v, 255), b.next))
  }

  /** Two's complement reading of an unsigned value below `2 * half`. */
  function Signed(v: int, half: int): int {
    if v < half then v else v - 2 * half
  }

  function Unsigned(v: int, whole: nat): (r: nat)
    requires whole > 0
    ensures r < whole
  {
    v % whole
  }

  function Wrap32(v: int): int {
    Signed(v % 0x1_0000_0000, 0x8000_0000)
  }

  class Cursor {
    const data: seq<byte>
    var pos: nat

    ghost predicate Valid()
      reads this
    {
      pos <= |data|
    }

    constructor (data: seq<byte>)
      ensures Valid() && this.data == data && pos == 0
    {
      this.data := data;
      pos := 0;
    }

    method U8() returns (r: Result<byte>)
      requires Valid()
      modifies this`pos
      ensures Valid()
      ensures var t := TakeU8(data, old(pos));
              if t.Ok? then r == Ok(t.value.v) && pos == t.value.next else r == Err(t.error) && pos == old(pos)
    {
      if |data| - pos < 1 {
        return Err(Eof(data, pos, 1));
      }
      r := Ok(data[pos]);
      pos := pos + 1;
    }

    method U16() returns (r: Result<nat>)
      requires Valid()
      modifies this`pos
      ensures Valid()
      ensures var t := TakeU16(data, old(pos));
              if t.Ok? then r == Ok(t.value.v) && pos == t.value.next && r.value < 0x1_0000
                  else r == Err(t.error) && pos == old(pos)
    {
      if |data| - pos < 2 {
        return Err(Eof(data, pos, 2));
      }
      r := Ok(data[pos] as int + 256 * (data[pos + 1] as int));
      pos := pos + 2;
    }

    method Bytes(n: nat) returns (r: Result<seq<byte>>)
      requires Valid()
      modifies this`pos
      ensures Valid()
      ensures var t := TakeBytes(data, old(pos), n);
              if t.Ok? then r == Ok(t.value.v) && pos == t.value.next else r == Err(t.error) && pos == old(pos)
    {
      if |data| - pos < n {
        return Err(Eof(data, pos, n));
      }
      r := Ok(data[pos..pos + n]);
      pos := pos + n;
    }

    /** Red, green, blue. */
    method Colour3() returns (r: Result<Rgba>)
      requires Valid()
      modifies this`pos
      ensures Valid()
      ensures var t := TakeColour(data, old(pos));
              if t.Ok? then r == Ok(t.value.v) && pos == t.value.next else r == Err(t.error)
    {
      var red :- U8();
      var green :- U8();
      var blue :- U8();
      r := Ok(Rgba(red, green, blue, 255));
    }

    method Skip(n: nat) returns (r: Result<()>)
      requires Valid()
      modifies this`pos
      ensures Valid()
      ensures if |data| - old(pos) < n then r == Err(Eof(data, old(pos), n)) && pos == old(pos)
              else r == Ok(()) && pos == old(pos) + n
    {
      if |data| - pos < n {
        return Err(Eof(data, pos, n));
      }
      pos := pos + n;
      r := Ok(());
    }
  }

  // ---- Codes in place ----------------------------------------------------------------

  /** `c` stands in `d` at `pos`. */
  ghost predicate Stands(d: seq<byte>, pos: nat, c: seq<byte>) {
    pos + |c| <= |d| && d[pos..pos + |c|] == c
  }

  lemma StandsSplit(d: seq<byte>, pos: nat, a: seq<byte>, b: seq<byte>)
    requires Stands(d, pos, a + b)
    ensures Stands(d, pos, a) && Stands(d, pos + |a|, b)
  {
    var c := a + b;
    assert d[pos..pos + |a|] == d[pos..pos + |c|][..|a|];
    assert d[pos + |a|..pos + |c|] == d[pos..pos + |c|][|a|..];
  }

  lemma StandsByte(d: seq<byte>, pos: nat, b: byte)
    requires Stands(d, pos, [b])
    ensures TakeU8(d, pos) == Ok(Taken(b, pos + 1))
  {
    assert d[pos] == d[pos..pos + 1][0];
  }

  lemma StandsWord(d: seq<byte>, pos: nat, n: nat)
    requires n < 0x1_0000 && Stands(d, pos, Le16(n))
    ensures TakeU16(d, pos) == Ok(Taken(n, pos + 2))
  {
    assert d[pos] == d[pos..pos + 2][0] && d[pos + 1] == d[pos..pos + 2][1];
  }

  lemma StandsWhole(d: seq<byte>, pos: nat, c: seq<byte>)
    requires Stands(d, pos, c)
    ensures TakeBytes(d, pos, |c|) == Ok(Taken(c, pos + |c|)) && pos + |c| <= |d|
  {
  }

  // ---- Slots ------------------------------------------------------------------------

  datatype Value = Num(n: int) | Colour(c: Rgba) | Text(b: seq<byte>)

  datatype Kind = Coord | Byte | SByte | Word | Rgb | Pad7 | Blob

  /** A field of an order: the bit of the field flags that announces it, and its encoding. */
  datatype Slot = Slot(bit: nat, kind: Kind)

  type Layout = seq<Slot>

  predicate BitSet(flags: nat, bit: nat) {
    flags / Pow2(bit) % 2 == 1
  }

  function NumOf(v: Value): int { if v.Num? then v.n else 0 }

  /** One field as read from the stream, given its sticky value. */
  function ReadKind(k: Kind, prev: Value, delta: bool, d: seq<byte>, pos: nat): (r: Result<Taken<Value>>)
    requires pos <= |d|
    ensures r.Ok? ==> pos <= r.value.next <= |d|
  {
    match k
    case Coord =>
      if delta then
        var t :- TakeU8(d, pos); Ok(Taken(Num(Wrap32(NumOf(prev) + Signed(t.v, 128))), t.next))
      else
        var t :- TakeU16(d, pos); Ok(Taken(Num(Signed(t.v, 0x8000)), t.next))
    case Byte => var t :- TakeU8(d, pos); Ok(Taken(Num(t.v), t.next))
    case SByte => var t :- TakeU8(d, pos); Ok(Taken(Num(Signed(t.v, 128)), t.next))
    case Word => var t :- TakeU16(d, pos); Ok(Taken(Num(t.v), t.next))
    case Rgb =>
      var t :- TakeColour(d, pos); Ok(Taken(Colour(t.v), t.next))
    case Pad7 => var t :- TakeBytes(d, pos, 7); Ok(Taken(prev, t.next))
    case Blob =>
      var n :- TakeU8(d, pos);
      var len := if n.v as int <= |d| - n.next then n.v as int else |d| - n.next;
      var t :- TakeBytes(d, n.next, len);
      Ok(Taken(Text(t.v), t.next))
  }

  function ReadSlot(s: Slot, prev: Value, flags: nat, delta: bool, d: seq<byte>, pos: nat): (r: Result<Taken<Value>>)
    requires pos <= |d|
    ensures r.Ok? ==> pos <= r.value.next <= |d|
  {
    if BitSet(flags, s.bit) then ReadKind(s.kind, prev, delta, d, pos) else Ok(Taken(prev, pos))
  }

  /** Values and position after a number of slots, or the first error with the fields updated up to there. */
  datatype Decoding = Decoding(vals: seq<Value>, pos: nat, error: Option<OrderError>)

  function Upto(l: Layout, k: nat, vals: seq<Value>, flags: nat, delta: bool, d: seq<byte>, pos: nat): (r: Decoding)
    requires k <= |l| == |vals| && pos <= |d|
    ensures |r.vals| == |vals| && pos <= r.pos <= |d|
    decreases k
  {
    if k == 0 then Decoding(vals, pos, None)
    else
      var s := Upto(l, k - 1, vals, flags, delta, d, pos);
      if s.error.Some? then s
      else
        match ReadSlot(l[k - 1], s.vals[k - 1], flags, delta, d, s.pos)
        case Ok(t) => Decoding(s.vals[k - 1 := t.v], t.next, None)
        case Err(e) => s.(error := Some(e))
  }

  /** Decoding of a whole order. */
  function DecodeFields(l: Layout, vals: seq<Value>, flags: nat, delta: bool, d: seq<byte>, pos: nat): Decoding
    requires |l| == |vals| && pos <= |d|
  {
    Upto(l, |l|, vals, flags, delta, d, pos)
  }

  /** The first error ends the decoding and keeps the fields read before it. */
  lemma {:induction false} ErrorEnds(l: Layout, k: nat, n: nat, vals: seq<Value>, flags: nat, delta: bool,
                                     d: seq<byte>, pos: nat)
    requires k <= n <= |l| == |vals| && pos <= |d| && Upto(l, k, vals, flags, delta, d, pos).error.Some?
    ensures Upto(l, n, vals, flags, delta, d, pos) == Upto(l, k, vals, flags, delta, d, pos)
    decreases n
  {
    if k < n {
      ErrorEnds(l, k, n - 1, vals, flags, delta, d, pos);
    }
  }

  lemma NextSlot(l: Layout, k: nat, vals: seq<Value>, flags: nat, delta: bool, d: seq<byte>, pos: nat)
    requires k < |l| == |vals| && pos <= |d|
    ensures var s := Upto(l, k, vals, flags, delta, d, pos);
            s.error.None? ==>
              var t := ReadSlot(l[k], s.vals[k], flags, delta, d, s.pos);
              Upto(l, k + 1, vals, flags, delta, d, pos)
              == if t.Ok? then Decoding(s.vals[k := t.value.v], t.value.next, None) else s.(error := Some(t.error))
  {
    hide ReadSlot;
  }

  // ---- Round trip --------------------------------------------------------------------

  /** The new value of a slot has an encoding, relative to the old one if `delta`. */
  predicate Fits(k: Kind, prev: Value, v: Value, delta: bool) {
    match k
    case Coord =>
      && prev.Num? && v.Num?
      && if delta then -128 <= v.n - prev.n <= 127 && MIN32 <= v.n <= MAX32 else -0x8000 <= v.n <= 0x7FFF
    case Byte => v.Num? && 0 <= v.n < 256
    case SByte => v.Num? && -128 <= v.n < 128
    case Word => v.Num? && 0 <= v.n < 0x1_0000
    case Rgb => v.Colour? && v.c.a == 255
    case Pad7 => v == prev
    case Blob => v.Text? && |v.b| < 256
  }

  function KindCode(k: Kind, prev: Value, v: Value, delta: bool): seq<byte>
    requires Fits(k, prev, v, delta)
  {
    match k
    case Coord => if delta then [Unsigned(v.n - prev.n, 256) as byte] else Le16(Unsigned(v.n, 0x1_0000))
    case Byte => [v.n as byte]
    case SByte => [Unsigned(v.n, 256) as byte]
    case Word => Le16(v.n)
    case Rgb => [v.c.r, v.c.g, v.c.b]
    case Pad7 => [0, 0, 0, 0, 0, 0, 0]
    case Blob => [|v.b| as byte] + v.b
  }

  lemma KindRoundTrip(k: Kind, prev: Value, v: Value, delta: bool, d: seq<byte>, pos: nat)
    requires Fits(k, prev, v, delta)
    requires pos + |KindCode(k, prev, v, delta)| <= |d|
             && d[pos..pos + |KindCode(k, prev, v, delta)|] == KindCode(k, prev, v, delta)
    ensures ReadKind(k, prev, delta, d, pos) == Ok(Taken(v, pos + |KindCode(k, prev, v, delta)|))
  {
    match k
    case Coord => CoordRoundTrip(prev, v, delta, d, pos);
    case SByte =>
      TwosComplement(v.n);
      assert d[pos] == d[pos..pos + 1][0];
    case Byte => assert d[pos] == d[pos..pos + 1][0];
    case Word => assert d[pos] == d[pos..pos + 2][0] && d[pos + 1] == d[pos..pos + 2][1];
    case Rgb =>
      var part := d[pos..pos + 3];
      assert d[pos] == part[0] && d[pos + 1] == part[1] && d[pos + 2] == part[2];
    case Pad7 =>
    case Blob =>
      var part := d[pos..pos + 1 + |v.b|];
      assert d[pos] == part[0];
      assert d[pos + 1..pos + 1 + |v.b|] == part[1..] == v.b;
  }

  lemma TwosComplement(n: int)
    ensures -128 <= n < 128 ==> Signed(Unsigned(n, 256), 128) == n
    ensures -0x8000 <= n < 0x8000 ==> Signed(Unsigned(n, 0x1_0000), 0x8000) == n
    ensures MIN32 <= n <= MAX32 ==> Wrap32(n) == n
  {
  }

  lemma CoordRoundTrip(prev: Value, v: Value, delta: bool, d: seq<byte>, pos: nat)
    requires Fits(Coord, prev, v, delta)
    requires var code := KindCode(Coord, prev, v, delta); pos + |code| <= |d| && d[pos..pos + |code|] == code
    ensures ReadKind(Coord, prev, delta, d, pos) == Ok(Taken(v, pos + |KindCode(Coord, prev, v, delta)|))
  {
    hide Signed, Unsigned, Wrap32;
    if delta {
      assert d[pos] == d[pos..pos + 1][0];
      TwosComplement(v.n - prev.n);
      TwosComplement(v.n);
    } else {
      assert d[pos] == d[pos..pos + 2][0] && d[pos + 1] == d[pos..pos + 2][1];
      TwosComplement(v.n);
    }
  }

  /** A choice of flags that covers every changed field, all of them encodable. */
  predicate Codable(l: Layout, prev: seq<Value>, sent: seq<Value>, flags: nat, delta: bool)
    requires |l| == |prev| == |sent|
  {
    forall k :: 0 <= k < |l| ==>
      if BitSet(flags, l[k].bit) then Fits(l[k].kind, prev[k], sent[k], delta) else sent[k] == prev[k]
  }

  /** Bytes of the first `k` fields: the flagged ones only. */
  function Code(l: Layout, k: nat, prev: seq<Value>, sent: seq<Value>, flags: nat, delta: bool): seq<byte>
    requires k <= |l| == |prev| == |sent| && Codable(l, prev, sent, flags, delta)
    decreases k
  {
    if k == 0 then []
    else Code(l, k - 1, prev, sent, flags, delta)
         + if BitSet(flags, l[k - 1].bit) then KindCode(l[k - 1].kind, prev[k - 1], sent[k - 1], delta) else []
  }

  lemma {:induction false} FieldsRoundTrip(l: Layout, k: nat, prev: seq<Value>, sent: seq<Value>, flags: nat,
                                           delta: bool, d: seq<byte>, pos: nat)
    requires k <= |l| == |prev| == |sent| && Codable(l, prev, sent, flags, delta)
    requires var c := Code(l, k, prev, sent, flags, delta); pos + |c| <= |d| && d[pos..pos + |c|] == c
    ensures Upto(l, k, prev, flags, delta, d, pos)
            == Decoding(sent[..k] + prev[k..], pos + |Code(l, k, prev, sent, flags, delta)|, None)
    decreases k
  {
    hide ReadKind, KindCode, Fits, BitSet;
    if k == 0 {
      assert sent[..0] + prev[0..] == prev;
    } else {
      var s := l[k - 1];
      var a := Code(l, k - 1, prev, sent, flags, delta);
      var b := if BitSet(flags, s.bit) then KindCode(s.kind, prev[k - 1], sent[k - 1], delta) else [];
      SlicedTwice(d, pos, a, b);
      FieldsRoundTrip(l, k - 1, prev, sent, flags, delta, d, pos);
      if BitSet(flags, s.bit) {
        KindRoundTrip(s.kind, prev[k - 1], sent[k - 1], delta, d, pos + |a|);
      }
      MixedNext(prev, sent, k);
    }
  }

  lemma SlicedTwice(d: seq<byte>, pos: nat, a: seq<byte>, b: seq<byte>)
    requires pos + |a + b| <= |d| && d[pos..pos + |a + b|] == a + b
    ensures d[pos..pos + |a|] == a && d[pos + |a|..pos + |a| + |b|] == b
  {
    assert d[pos..pos + |a|] == d[pos..pos + |a + b|][..|a|];
    assert d[pos + |a|..pos + |a| + |b|] == d[pos..pos + |a + b|][|a|..];
  }

  /** The first `k` new values, then old ones. */
  lemma MixedNext(prev: seq<Value>, sent: seq<Value>, k: nat)
    requires 0 < k <= |prev| == |sent|
    ensures var vals := sent[..k - 1] + prev[k - 1..];
            |vals| == |prev| && vals[k - 1] == prev[k - 1] && vals[k - 1 := sent[k - 1]] == sent[..k] + prev[k..]
  {
  }

  /** Whatever fields an encoder leaves out or sends as deltas, the decoder rebuilds all values and stops at the
      order's end. */
  lemma OrderFieldsRoundTrip(l: Layout, prev: seq<Value>, sent: seq<Value>, flags: nat, delta: bool, d: seq<byte>,
                             pos: nat)
    requires |l| == |prev| == |sent| && Codable(l, prev, sent, flags, delta)
    requires var c := Code(l, |l|, prev, sent, flags, delta); pos + |c| <= |d| && d[pos..pos + |c|] == c
    ensures DecodeFields(l, prev, flags, delta, d, pos)
            == Decoding(sent, pos + |Code(l, |l|, prev, sent, flags, delta)|, None)
  {
    FieldsRoundTrip(l, |l|, prev, sent, flags, delta, d, pos);
    assert sent[..|l|] + prev[|l|..] == sent;
  }

  // ---- The decoder ----------------------------------------------------------------------

  /** `r` and the new position are what `t` says; after an error the position does not matter. */
  ghost predicate Matches<T>(t: Result<Taken<T>>, r: Result<T>, next: nat) {
    if t.Ok? then r == Ok(t.value.v) && next == t.value.next else r == Err(t.error)
  }

  method ReadField(k: Kind, prev: Value, c: Cursor, delta: bool) returns (r: Result<Value>)
    requires c.Valid()
    modifies c`pos
    ensures c.Valid() && Matches(ReadKind(k, prev, delta, c.data, old(c.pos)), r, c.pos)
  {
    hide Wrap32;
    match k {
      case Coord =>
        if delta {
          var b :- c.U8();
          return Ok(Num(Wrap32(NumOf(prev) + Signed(b, 128))));
        }
        var w :- c.U16();
        return Ok(Num(Signed(w, 0x8000)));
      case Byte =>
        var b :- c.U8();
        return Ok(Num(b));
      case SByte =>
        var b :- c.U8();
        return Ok(Num(Signed(b, 128)));
      case Word =>
        var w :- c.U16();
        return Ok(Num(w));
      case Rgb =>
        var colour :- c.Colour3();
        return Ok(Colour(colour));
      case Pad7 =>
        var _ :- c.Skip(7);
        return Ok(prev);
      case Blob =>
        var n :- c.U8();
        var left := |c.data| - c.pos;
        var b :- c.Bytes(if n as int <= left then n else left);
        return Ok(Text(b));
    }
  }

  /** Reads the flagged fields in order; the first error ends the decoding and keeps the fields read so far. */
  method DecodeOrder(l: Layout, prev: seq<Value>, c: Cursor, flags: nat, delta: bool)
      returns (vals: seq<Value>, r: Result<()>)
    requires c.Valid() && |l| == |prev|
    modifies c`pos
    ensures c.Valid()
    ensures var s := DecodeFields(l, prev, flags, delta, c.data, old(c.pos));
            vals == s.vals && if s.error.None? then r == Ok(()) && c.pos == s.pos else r == Err(s.error.value)
  {
    hide ReadKind, BitSet;
    ghost var d, start := c.data, c.pos;
    vals := prev;
    for k := 0 to |l|
      invariant c.Valid() && Upto(l, k, prev, flags, delta, d, start) == Decoding(vals, c.pos, None)
    {
      NextSlot(l, k, prev, flags, delta, d, start);
      if BitSet(flags, l[k].bit) {
        var v := ReadField(l[k].kind, vals[k], c, delta);
        if v.Err? {
          ErrorEnds(l, k + 1, |l|, prev, flags, delta, d, start);
          return vals, Err(v.error);
        }
        vals := vals[k := v.value];
      }
    }
    r := Ok(());
  }
}
