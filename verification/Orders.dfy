/**
 The order stream: primary-order headers, the field tables of the nine rendered orders, and what a whole
 stream parses to. Sections 2.2.2.2.1.1.2 and 2.2.2.2.1.2 of MS-RDPEGDI.
 */
module Orders {
  import opened Options
  import opened Bits
  import opened Rects
  import opened Fields

  // Control flags, by weight.
  const TS_STANDARD := 0x01
  const TS_SECONDARY := 0x02
  const TS_BOUNDS := 0x04
  const TS_TYPE_CHANGE := 0x08
  const TS_DELTA_COORDINATES := 0x10
  const TS_ZERO_BOUNDS_DELTAS := 0x20
  const TS_ZERO_FIELD_BYTE_BIT0 := 0x40
  const TS_ZERO_FIELD_BYTE_BIT1 := 0x80

  predicate Has(b: byte, weight: nat)
    requires weight > 0
  {
    b / weight % 2 == 1
  }

  const DSTBLT: byte := 0x00
  const PATBLT: byte := 0x01
  const SCRBLT: byte := 0x02
  const LINE_TO: byte := 0x09
  const OPAQUE_RECT: byte := 0x0A
  const MEMBLT: byte := 0x0D
  const FAST_INDEX: byte := 0x13
  const FAST_GLYPH: byte := 0x18
  const GLYPH_INDEX: byte := 0x1B

  /** Field-flag bytes per order type; also for types that are sized but not rendered. */
  function FieldBytes(t: byte): Option<nat> {
    if t in {0x00, 0x02, 0x07, 0x0A, 0x0B, 0x12} then Some(1)
    else if t in {0x01, 0x08, 0x09, 0x0D, 0x0F, 0x10, 0x11, 0x14, 0x16, 0x18, 0x19} then Some(2)
    else if t in {0x0E, 0x13, 0x15, 0x1A, 0x1B} then Some(3)
    else None
  }

  // The fields of each order: bit and encoding, in wire order.

  const RECT_FIELDS: Layout := [Slot(0, Coord), Slot(1, Coord), Slot(2, Coord), Slot(3, Coord)]

  const TEXT_BOX: Layout := [
    Slot(4, Coord), Slot(5, Coord), Slot(6, Coord), Slot(7, Coord),
    Slot(8, Coord), Slot(9, Coord), Slot(10, Coord), Slot(11, Coord)]

  /** FastIndex and FastGlyph: bit 1 announces two bytes, the advance and the accelerator flags. */
  const FAST_TEXT: Layout :=
    [Slot(0, Byte), Slot(1, Byte), Slot(1, Byte), Slot(2, Rgb), Slot(3, Rgb)] + TEXT_BOX
    + [Slot(12, Coord), Slot(13, Coord), Slot(14, Blob)]

  function LayoutOf(t: byte): Option<Layout> {
    if t == DSTBLT then Some(RECT_FIELDS + [Slot(4, Byte)])
    else if t == OPAQUE_RECT then Some(RECT_FIELDS + [Slot(4, Byte), Slot(5, Byte), Slot(6, Byte)])
    else if t == PATBLT then
      Some(RECT_FIELDS + [Slot(4, Byte), Slot(5, Rgb), Slot(6, Rgb), Slot(7, SByte), Slot(8, SByte),
                          Slot(9, Byte), Slot(10, Byte), Slot(11, Pad7)])
    else if t == SCRBLT then Some(RECT_FIELDS + [Slot(4, Byte), Slot(5, Coord), Slot(6, Coord)])
    else if t == MEMBLT then
      Some([Slot(0, Word), Slot(1, Coord), Slot(2, Coord), Slot(3, Coord), Slot(4, Coord), Slot(5, Byte),
            Slot(6, Coord), Slot(7, Coord), Slot(8, Word)])
    else if t == LINE_TO then
      Some([Slot(0, Word), Slot(1, Coord), Slot(2, Coord), Slot(3, Coord), Slot(4, Coord), Slot(5, Rgb),
            Slot(6, Byte), Slot(7, Byte), Slot(8, Byte), Slot(9, Rgb)])
    else if t == GLYPH_INDEX then
      Some([Slot(0, Byte), Slot(1, Byte), Slot(2, Byte), Slot(3, Byte), Slot(4, Rgb), Slot(5, Rgb),
            Slot(6, Coord), Slot(7, Coord), Slot(8, Coord), Slot(9, Coord),
            Slot(10, Coord), Slot(11, Coord), Slot(12, Coord), Slot(13, Coord),
            Slot(14, Byte), Slot(15, Byte), Slot(16, Byte), Slot(17, Byte), Slot(18, Pad7),
            Slot(19, Coord), Slot(20, Coord), Slot(21, Blob)])
    else if t == FAST_INDEX || t == FAST_GLYPH then Some(FAST_TEXT)
    else None
  }

  /** Every rendered type has a flag size. */
  lemma RenderedIsSized(t: byte)
    ensures LayoutOf(t).Some? ==> FieldBytes(t).Some?
  {
  }

  // ---- Header -----------------------------------------------------------------------

  /** Flag bytes actually present: the two control bits drop one and two trailing bytes. */
  function FlagBytes(control: byte, fieldBytes: nat): nat {
    var a := if Has(control, TS_ZERO_FIELD_BYTE_BIT0) && fieldBytes > 0 then fieldBytes - 1 else fieldBytes;
    if Has(control, TS_ZERO_FIELD_BYTE_BIT1) then (if a > 1 then a - 2 else 0) else a
  }

  /** Little-endian flags of `n` bytes. */
  function TakeFlags(d: seq<byte>, pos: nat, n: nat): (r: Result<Taken<nat>>)
    requires pos <= |d|
    ensures r.Ok? ==> r.value.next == pos + n <= |d|
    decreases n
  {
    if n == 0 then Ok(Taken(0, pos))
    else
      var lo :- TakeU8(d, pos);
      var hi :- TakeFlags(d, pos + 1, n - 1);
      Ok(Taken(lo.v + 256 * hi.v, hi.next))
  }

  datatype Bounds = Bounds(left: int, top: int, right: int, bottom: int)

  function BoundsRect(b: Bounds): Rect {
    FromInclusive(b.left, b.top, b.right, b.bottom)
  }

  /** One edge: absolute, delta, or unchanged. */
  function TakeEdge(edge: int, absolute: bool, delta: bool, d: seq<byte>, pos: nat): (r: Result<Taken<int>>)
    requires pos <= |d|
    ensures r.Ok? ==> pos <= r.value.next <= |d|
  {
    if absolute then var t :- TakeU16(d, pos); Ok(Taken(Signed(t.v, 0x8000), t.next))
    else if delta then var t :- TakeU8(d, pos); Ok(Taken(Wrap32(edge + Signed(t.v, 128)), t.next))
    else Ok(Taken(edge, pos))
  }

  /** A flag byte, then the edges it announces. */
  function TakeBounds(b: Bounds, d: seq<byte>, pos: nat): (r: (Bounds, Result<nat>))
    requires pos <= |d|
    ensures r.1.Ok? ==> pos <= r.1.value <= |d|
  {
    var f := TakeU8(d, pos);
    if f.Err? then (b, Err(f.error)) else TakeEdges(b, f.value.v, d, f.value.next)
  }

  /** Edges are updated one by one; an error keeps those already read. */
  function TakeEdges(b: Bounds, flags: byte, d: seq<byte>, pos: nat): (r: (Bounds, Result<nat>))
    requires pos <= |d|
    ensures r.1.Ok? ==> pos <= r.1.value <= |d|
  {
    var l := TakeEdge(b.left, Has(flags, 1), Has(flags, 16), d, pos);
    if l.Err? then (b, Err(l.error))
    else
      var b1 := b.(left := l.value.v);
      var t := TakeEdge(b.top, Has(flags, 2), Has(flags, 32), d, l.value.next);
      if t.Err? then (b1, Err(t.error)) else TakeFarEdges(b1.(top := t.value.v), flags, d, t.value.next)
  }

  function TakeFarEdges(b: Bounds, flags: byte, d: seq<byte>, pos: nat): (r: (Bounds, Result<nat>))
    requires pos <= |d|
    ensures r.1.Ok? ==> pos <= r.1.value <= |d|
  {
    var r := TakeEdge(b.right, Has(flags, 4), Has(flags, 64), d, pos);
    if r.Err? then (b, Err(r.error))
    else
      var b1 := b.(right := r.value.v);
      var m := TakeEdge(b.bottom, Has(flags, 8), Has(flags, 128), d, r.value.next);
      if m.Err? then (b1, Err(m.error)) else (b1.(bottom := m.value.v), Ok(m.value.next))
  }

  // ---- Sticky state --------------------------------------------------------------------

  /** What persists from order to order: clip bounds, order type, and the fields of every rendered type. */
  datatype Sticky = Sticky(bounds: Bounds, orderType: Option<byte>, fields: map<byte, seq<Value>>) {
    ghost predicate Valid() {
      forall t: byte :: LayoutOf(t).Some? ==> t in fields && |fields[t]| == |LayoutOf(t).value|
    }
  }

  /** A decoded primary order with the clip it is drawn under. */
  datatype Primary = Primary(orderType: byte, vals: seq<Value>, clip: Option<Rect>)

  /** One primary order behind its control byte. Errors keep what was updated before them. */
  function TakePrimary(st: Sticky, control: byte, d: seq<byte>, pos: nat): (r: (Sticky, Result<Taken<Primary>>))
    requires st.Valid() && pos <= |d|
    ensures r.0.Valid()
    ensures r.1.Ok? ==> pos <= r.1.value.next <= |d|
  {
    var t := if Has(control, TS_TYPE_CHANGE) then TakeU8(d, pos)
             else if st.orderType.Some? then Ok(Taken(st.orderType.value, pos)) else Err(NoOrderType(control));
    if t.Err? then (st, Err(t.error))
    else
      var orderType := t.value.v;
      var st1 := st.(orderType := Some(orderType));
      if FieldBytes(orderType).None? then (st1, Err(UnsupportedOrderType(orderType)))
      else
        var flags := TakeFlags(d, t.value.next, FlagBytes(control, FieldBytes(orderType).value));
        if flags.Err? then (st1, Err(flags.error))
        else TakeBody(st1, control, orderType, flags.value.v, d, flags.value.next)
  }

  /** Bounds and fields. */
  function TakeBody(st: Sticky, control: byte, orderType: byte, flags: nat, d: seq<byte>,
                    pos: nat): (r: (Sticky, Result<Taken<Primary>>))
    requires st.Valid() && pos <= |d|
    ensures r.0.Valid()
    ensures r.1.Ok? ==> pos <= r.1.value.next <= |d|
  {
    var b := if Has(control, TS_BOUNDS) && !Has(control, TS_ZERO_BOUNDS_DELTAS) then TakeBounds(st.bounds, d, pos)
             else (st.bounds, Ok(pos));
    var st2 := st.(bounds := b.0);
    if b.1.Err? then (st2, Err(b.1.error))
    else if LayoutOf(orderType).None? then (st2, Err(UnsupportedOrderType(orderType)))
    else
      var s := DecodeFields(LayoutOf(orderType).value, st.fields[orderType], flags,
                            Has(control, TS_DELTA_COORDINATES), d, b.1.value);
      var st3 := st2.(fields := st.fields[orderType := s.vals]);
      if s.error.Some? then (st3, Err(s.error.value))
      else (st3, Ok(Taken(Primary(orderType, s.vals, if Has(control, TS_BOUNDS) then Some(BoundsRect(b.0)) else None),
                          s.pos)))
  }

  // ---- Streams ---------------------------------------------------------------------------

  /** What the stream asks the renderer to do. */
  datatype Action = Render(order: Primary) | Cache(orderType: byte, extraFlags: nat, payload: seq<byte>)

  /** Sticky state, actions so far, and either the counts or the error that ended the stream. */
  datatype Parsed = Parsed(st: Sticky, actions: seq<Action>, result: Result<(nat, nat)>)

  /** A secondary order behind its control byte: the declared length delimits it whatever it holds. */
  function TakeSecondary(d: seq<byte>, pos: nat): (r: Result<Taken<Action>>)
    requires pos <= |d|
    ensures r.Ok? ==> pos <= r.value.next <= |d|
  {
    var len :- TakeU16(d, pos);
    var extra :- TakeU16(d, len.next);
    var t :- TakeU8(d, extra.next);
    var n := if len.v + 7 <= |d| - t.next then len.v + 7 else |d| - t.next;
    Ok(Taken(Cache(t.v, extra.v, d[t.next..t.next + n]), t.next + n))
  }

  /** Bytes of an alternate secondary order that can be sized: frame marker and switch surface. */
  function AltSize(control: byte): Option<nat> {
    if control / 4 == 0x0D then Some(4) else if control / 4 == 0x00 then Some(2) else None
  }

  /** The orders from `pos` on, up to `number` in all. */
  function Parse(st: Sticky, d: seq<byte>, pos: nat, number: nat, orders: nat, skipped: nat): (r: Parsed)
    requires st.Valid() && pos <= |d|
    ensures r.st.Valid()
    ensures orders + skipped <= number && r.result.Ok? ==> r.result.value.0 + r.result.value.1 <= number
    decreases |d| - pos
  {
    if orders + skipped >= number || pos >= |d| then Parsed(st, [], Ok((orders, skipped)))
    else
      var control := d[pos];
      if !Has(control, TS_STANDARD) then
        if AltSize(control).None? then Parsed(st, [], Ok((orders, skipped + 1)))
        else if |d| - (pos + 1) < AltSize(control).value then
          Parsed(st, [], Err(Eof(d, pos + 1, AltSize(control).value)))
        else Parse(st, d, pos + 1 + AltSize(control).value, number, orders, skipped + 1)
      else if Has(control, TS_SECONDARY) then
        var s := TakeSecondary(d, pos + 1);
        if s.Err? then Parsed(st, [], Err(s.error))
        else
          var r := Parse(st, d, s.value.next, number, orders + 1, skipped);
          r.(actions := [s.value.v] + r.actions)
      else
        var p := TakePrimary(st, control, d, pos + 1);
        if p.1.Err? then Parsed(p.0, [], Err(p.1.error))
        else
          var r := Parse(p.0, d, p.1.value.next, number, orders + 1, skipped);
          r.(actions := [Render(p.1.value.v)] + r.actions)
  }

  /** An Orders update: the order count, then the orders. */
  function ParseUpdate(st: Sticky, d: seq<byte>): (r: Parsed)
    requires st.Valid()
    ensures r.st.Valid()
  {
    var n := TakeU16(d, 0);
    if n.Err? then Parsed(st, [], Err(n.error)) else Parse(st, d, n.value.next, n.value.v, 0, 0)
  }

  lemma ParseEnd(st: Sticky, d: seq<byte>, pos: nat, number: nat, orders: nat, skipped: nat)
    requires st.Valid() && pos <= |d| && (orders + skipped >= number || pos == |d|)
    ensures Parse(st, d, pos, number, orders, skipped) == Parsed(st, [], Ok((orders, skipped)))
  {
  }

  /** One turn of the parser. */
  lemma ParseStep(st: Sticky, d: seq<byte>, pos: nat, number: nat, orders: nat, skipped: nat)
    requires st.Valid() && pos < |d| && orders + skipped < number
    ensures var control, r := d[pos], Parse(st, d, pos, number, orders, skipped);
      if !Has(control, TS_STANDARD) then
        if AltSize(control).None? then r == Parsed(st, [], Ok((orders, skipped + 1)))
        else if |d| - (pos + 1) < AltSize(control).value then
          r == Parsed(st, [], Err(Eof(d, pos + 1, AltSize(control).value)))
        else r == Parse(st, d, pos + 1 + AltSize(control).value, number, orders, skipped + 1)
      else if Has(control, TS_SECONDARY) then
        var s := TakeSecondary(d, pos + 1);
        if s.Err? then r == Parsed(st, [], Err(s.error))
        else
          var q := Parse(st, d, s.value.next, number, orders + 1, skipped);
          r == q.(actions := [s.value.v] + q.actions)
      else
        var p := TakePrimary(st, control, d, pos + 1);
        if p.1.Err? then r == Parsed(p.0, [], Err(p.1.error))
        else
          var q := Parse(p.0, d, p.1.value.next, number, orders + 1, skipped);
          r == q.(actions := [Render(p.1.value.v)] + q.actions)
  {
    hide TakePrimary, TakeSecondary, Has, AltSize, Sticky.Valid;
  }
}
