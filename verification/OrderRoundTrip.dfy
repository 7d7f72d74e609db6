/**
 An encoder of order streams, free to leave out unchanged fields, drop zero flag bytes, send deltas and reuse
 type and bounds; and the proof that the decoder rebuilds every order and stays in step with it.
 */
module OrderRoundTrip {
  import opened Options
  import opened Bits
  import opened Rects
  import opened Fields
  import opened Orders

  datatype Edge = Keep | Absolute(v: int) | Delta(dv: int)

  datatype Clipping = Unclipped | SameBounds | NewBounds(left: Edge, top: Edge, right: Edge, bottom: Edge)

  /** An order as the encoder chooses to send it. */
  datatype Sent =
    | SentPrimary(orderType: byte, vals: seq<Value>, flags: nat, dropped: nat, delta: bool, retype: bool,
                  clipping: Clipping)
    | SentSecondary(orderType: byte, extraFlags: nat, payload: seq<byte>)
    | SentAlt(control: byte, body: seq<byte>)

  predicate EdgeOk(e: Edge, before: int) {
    match e
    case Keep => true
    case Absolute(v) => -0x8000 <= v < 0x8000
    case Delta(dv) => -128 <= dv < 128 && MIN32 <= before + dv <= MAX32
  }

  function EdgeAfter(e: Edge, before: int): int {
    match e case Keep => before case Absolute(v) => v case Delta(dv) => before + dv
  }

  predicate EdgeRange(e: Edge) {
    e.Absolute? ==> -0x8000 <= e.v < 0x8000
  }

  function EdgeCode(e: Edge): seq<byte>
    requires EdgeRange(e)
  {
    match e
    case Keep => []
    case Absolute(v) => Le16(Unsigned(v, 0x1_0000))
    case Delta(dv) => [Unsigned(dv, 256) as byte]
  }

  function EdgeBit(e: Edge, absolute: nat, delta: nat): nat {
    match e case Keep => 0 case Absolute(_) => absolute case Delta(_) => delta
  }

  predicate ClippingOk(c: Clipping, b: Bounds) {
    c.NewBounds? ==>
      EdgeOk(c.left, b.left) && EdgeOk(c.top, b.top) && EdgeOk(c.right, b.right) && EdgeOk(c.bottom, b.bottom)
  }

  function BoundsAfter(c: Clipping, b: Bounds): Bounds {
    if !c.NewBounds? then b
    else Bounds(EdgeAfter(c.left, b.left), EdgeAfter(c.top, b.top), EdgeAfter(c.right, b.right),
                EdgeAfter(c.bottom, b.bottom))
  }

  function BoundsFlags(c: Clipping): nat
    requires c.NewBounds?
  {
    EdgeBit(c.left, 1, 16) + EdgeBit(c.top, 2, 32) + EdgeBit(c.right, 4, 64) + EdgeBit(c.bottom, 8, 128)
  }

  function BoundsCode(c: Clipping, b: Bounds): seq<byte>
    requires ClippingOk(c, b)
  {
    if !c.NewBounds? then []
    else [BoundsFlags(c) as byte] + EdgeCode(c.left) + EdgeCode(c.top) + EdgeCode(c.right) + EdgeCode(c.bottom)
  }

  /** The encoder may send `s` in sticky state `st`. */
  ghost predicate Sendable(st: Sticky, s: Sent)
    requires st.Valid()
  {
    match s
    case SentPrimary(t, vals, flags, dropped, delta, retype, clipping) =>
      && LayoutOf(t).Some? && |vals| == |LayoutOf(t).value|
      && (retype || st.orderType == Some(t))
      && dropped <= 3 && dropped <= FieldBytes(t).value && flags < Pow2(8 * (FieldBytes(t).value - dropped))
      && Codable(LayoutOf(t).value, st.fields[t], vals, flags, delta)
      && ClippingOk(clipping, st.bounds)
    case SentSecondary(t, extra, payload) => extra < 0x1_0000 && 7 <= |payload| < 0x1_0000 + 7
    case SentAlt(control, body) =>
      control % 2 == 0 && ((control / 4 == 0x0D && |body| == 4) || (control / 4 == 0x00 && |body| == 2))
  }

  /** The encoder's own sticky state after sending. */
  ghost function After(st: Sticky, s: Sent): (r: Sticky)
    requires st.Valid() && Sendable(st, s)
    ensures r.Valid()
  {
    if s.SentPrimary? then
      Sticky(BoundsAfter(s.clipping, st.bounds), Some(s.orderType), st.fields[s.orderType := s.vals])
    else st
  }

  function ActionsOf(st: Sticky, s: Sent): seq<Action> {
    match s
    case SentPrimary(t, vals, _, _, _, _, clipping) =>
      [Render(Primary(t, vals, if clipping.Unclipped? then None
                      else Some(BoundsRect(BoundsAfter(clipping, st.bounds)))))]
    case SentSecondary(t, extra, payload) => [Cache(t, extra, payload)]
    case SentAlt(_, _) => []
  }

  function W(b: bool, weight: nat): nat { if b then weight else 0 }

  function ControlOf(s: Sent): nat
    requires s.SentPrimary?
  {
    1 + W(!s.clipping.Unclipped?, 4) + W(s.retype, 8) + W(s.delta, 16) + W(s.clipping.SameBounds?, 32)
    + W(s.dropped % 2 == 1, 64) + W(s.dropped / 2 == 1, 128)
  }

  function FlagCode(flags: nat, n: nat): (c: seq<byte>)
    ensures |c| == n
    decreases n
  {
    if n == 0 then [] else [(flags % 256) as byte] + FlagCode(flags / 256, n - 1)
  }

  ghost function Bytes(st: Sticky, s: Sent): seq<byte>
    requires st.Valid() && Sendable(st, s)
  {
    match s
    case SentPrimary(t, vals, flags, dropped, delta, retype, clipping) =>
      [ControlOf(s) as byte] + (if retype then [t] else []) + FlagCode(flags, FieldBytes(t).value - dropped)
      + BoundsCode(clipping, st.bounds) + Code(LayoutOf(t).value, |vals|, st.fields[t], vals, flags, delta)
    case SentSecondary(t, extra, payload) => [3] + Le16(|payload| - 7) + Le16(extra) + [t] + payload
    case SentAlt(control, body) => [control] + body
  }

  // ---- Reading back --------------------------------------------------------------------------

  lemma {:induction false} FlagsRoundTrip(flags: nat, n: nat, d: seq<byte>, pos: nat)
    requires flags < Pow2(8 * n) && Stands(d, pos, FlagCode(flags, n))
    ensures TakeFlags(d, pos, n) == Ok(Taken(flags, pos + n))
    decreases n
  {
    if n > 0 {
      StandsSplit(d, pos, [(flags % 256) as byte], FlagCode(flags / 256, n - 1));
      StandsByte(d, pos, (flags % 256) as byte);
      Pow2Add(8, 8 * (n - 1));
      Pow2Small();
      FlagsRoundTrip(flags / 256, n - 1, d, pos + 1);
    }
  }

  lemma EdgeRoundTrip(e: Edge, before: int, d: seq<byte>, pos: nat)
    requires EdgeOk(e, before) && Stands(d, pos, EdgeCode(e))
    ensures TakeEdge(before, e.Absolute?, e.Delta?, d, pos) == Ok(Taken(EdgeAfter(e, before), pos + |EdgeCode(e)|))
  {
    hide Signed, Unsigned, Wrap32;
    match e
    case Keep =>
    case Absolute(v) =>
      TwosComplement(v);
      StandsWord(d, pos, Unsigned(v, 0x1_0000));
    case Delta(dv) =>
      TwosComplement(dv);
      TwosComplement(before + dv);
      StandsByte(d, pos, Unsigned(dv, 256) as byte);
  }

  lemma BoundsBits(c: Clipping)
    requires c.NewBounds?
    ensures BoundsFlags(c) < 256
    ensures var f := BoundsFlags(c);
            && (Orders.Has(f, 1) <==> c.left.Absolute?) && (Orders.Has(f, 16) <==> c.left.Delta?)
            && (Orders.Has(f, 2) <==> c.top.Absolute?) && (Orders.Has(f, 32) <==> c.top.Delta?)
            && (Orders.Has(f, 4) <==> c.right.Absolute?) && (Orders.Has(f, 64) <==> c.right.Delta?)
            && (Orders.Has(f, 8) <==> c.bottom.Absolute?) && (Orders.Has(f, 128) <==> c.bottom.Delta?)
  {
    EightBits(BoundsFlags(c), B(c.bottom.Delta?), B(c.right.Delta?), B(c.top.Delta?), B(c.left.Delta?),
              B(c.bottom.Absolute?), B(c.right.Absolute?), B(c.top.Absolute?), B(c.left.Absolute?));
  }

  function B(b: bool): bit { if b then 1 else 0 }

  lemma FiveStand(d: seq<byte>, pos: nat, a: seq<byte>, b: seq<byte>, c: seq<byte>, e: seq<byte>, f: seq<byte>)
    requires Stands(d, pos, a + b + c + e + f)
    ensures Stands(d, pos, a) && Stands(d, pos + |a|, b) && Stands(d, pos + |a| + |b|, c)
    ensures Stands(d, pos + |a| + |b| + |c|, e) && Stands(d, pos + |a| + |b| + |c| + |e|, f)
  {
    hide Stands;
    StandsSplit(d, pos, a + b + c + e, f);
    StandsSplit(d, pos, a + b + c, e);
    StandsSplit(d, pos, a + b, c);
    StandsSplit(d, pos, a, b);
  }

  lemma BoundsRoundTrip(c: Clipping, b: Bounds, d: seq<byte>, pos: nat)
    requires c.NewBounds? && ClippingOk(c, b) && Stands(d, pos, BoundsCode(c, b))
    ensures TakeBounds(b, d, pos) == (BoundsAfter(c, b), Ok(pos + |BoundsCode(c, b)|))
  {
    hide EdgeCode, TakeEdge, BoundsFlags, Orders.Has, Stands, EdgeAfter, EdgeOk, BoundsCode;
    BoundsBits(c);
    EdgesOk(c, b);
    BoundsCodeParts(c, b);
    var f: byte := BoundsFlags(c);
    var (l, t, r, m) := (EdgeCode(c.left), EdgeCode(c.top), EdgeCode(c.right), EdgeCode(c.bottom));
    FiveStand(d, pos, [f], l, t, r, m);
    StandsByte(d, pos, f);
    EdgeRoundTrip(c.left, b.left, d, pos + 1);
    EdgeRoundTrip(c.top, b.top, d, pos + 1 + |l|);
    EdgeRoundTrip(c.right, b.right, d, pos + 1 + |l| + |t|);
    EdgeRoundTrip(c.bottom, b.bottom, d, pos + 1 + |l| + |t| + |r|);
  }

  lemma EdgesOk(c: Clipping, b: Bounds)
    requires c.NewBounds? && ClippingOk(c, b)
    ensures EdgeRange(c.left) && EdgeRange(c.top) && EdgeRange(c.right) && EdgeRange(c.bottom)
  {
  }

  lemma BoundsCodeParts(c: Clipping, b: Bounds)
    requires c.NewBounds? && ClippingOk(c, b) && BoundsFlags(c) < 256
    ensures EdgeRange(c.left) && EdgeRange(c.top) && EdgeRange(c.right) && EdgeRange(c.bottom)
    ensures BoundsCode(c, b) == [BoundsFlags(c) as byte] + EdgeCode(c.left) + EdgeCode(c.top) + EdgeCode(c.right)
            + EdgeCode(c.bottom)
  {
  }

  lemma ControlBits(s: Sent)
    requires s.SentPrimary? && s.dropped <= 3
    ensures ControlOf(s) < 256
    ensures var c := ControlOf(s);
            && Orders.Has(c, TS_STANDARD) && !Orders.Has(c, TS_SECONDARY)
            && (Orders.Has(c, TS_BOUNDS) <==> !s.clipping.Unclipped?) && (Orders.Has(c, TS_TYPE_CHANGE) <==> s.retype)
            && (Orders.Has(c, TS_DELTA_COORDINATES) <==> s.delta)
                && (Orders.Has(c, TS_ZERO_BOUNDS_DELTAS) <==> s.clipping.SameBounds?)
            && (Orders.Has(c, TS_ZERO_FIELD_BYTE_BIT0) <==> s.dropped % 2 == 1)
            && (Orders.Has(c, TS_ZERO_FIELD_BYTE_BIT1) <==> s.dropped / 2 == 1)
  {
  }

  /** Where the parts of a primary order stand. */
  lemma PrimaryParts(st: Sticky, s: Sent, d: seq<byte>, pos: nat)
    requires st.Valid() && s.SentPrimary? && Sendable(st, s) && Stands(d, pos, Bytes(st, s))
    ensures LayoutOf(s.orderType).Some? && FieldBytes(s.orderType).Some? && s.dropped <= FieldBytes(s.orderType).value
    ensures ControlOf(s) < 256
    ensures var (t, n) := (s.orderType, FieldBytes(s.orderType).value - s.dropped);
            var at := if s.retype then pos + 2 else pos + 1;
            var fields := Code(LayoutOf(t).value, |s.vals|, st.fields[t], s.vals, s.flags, s.delta);
            var bounds := BoundsCode(s.clipping, st.bounds);
            && Stands(d, pos, [ControlOf(s) as byte]) && (s.retype ==> Stands(d, pos + 1, [t]))
            && Stands(d, at, FlagCode(s.flags, n)) && Stands(d, at + n, bounds) && Stands(d, at + n + |bounds|, fields)
            && |Bytes(st, s)| == at - pos + n + |bounds| + |fields|
  {
    hide Code, Codable, LayoutOf, FlagCode, BoundsCode, ControlOf, Stands, ClippingOk, FieldBytes;
    ControlBits(s);
    RenderedIsSized(s.orderType);
    var t, c := s.orderType, ControlOf(s) as byte;
    var n := FieldBytes(t).value - s.dropped;
    FiveStand(d, pos, [c], if s.retype then [t] else [], FlagCode(s.flags, n), BoundsCode(s.clipping, st.bounds),
              Code(LayoutOf(t).value, |s.vals|, st.fields[t], s.vals, s.flags, s.delta));
  }

  lemma PrimaryRoundTrip(st: Sticky, s: Sent, d: seq<byte>, pos: nat)
    requires st.Valid() && s.SentPrimary? && Sendable(st, s) && Stands(d, pos, Bytes(st, s))
    ensures pos < |d| && d[pos] == ControlOf(s)
    ensures var p := TakePrimary(st, d[pos], d, pos + 1);
            p.0 == After(st, s) && p.1.Ok? && [Render(p.1.value.v)] == ActionsOf(st, s)
                && p.1.value.next == pos + |Bytes(st, s)|
  {
    hide Code, Codable, DecodeFields, LayoutOf, FlagCode, TakeFlags, BoundsCode, TakeBounds, ControlOf, Stands,
         ClippingOk, Orders.Has, BoundsAfter, TakeBody, FieldBytes, Bytes;
    PrimaryParts(st, s, d, pos);
    ControlBits(s);
    var t := s.orderType;
    var n := FieldBytes(t).value - s.dropped;
    StandsByte(d, pos, ControlOf(s));
    if s.retype {
      StandsByte(d, pos + 1, t);
    }
    var at := if s.retype then pos + 2 else pos + 1;
    DroppedBytes(s, FieldBytes(t).value);
    FlagsRoundTrip(s.flags, n, d, at);
    BodyRoundTrip(st, s, d, at + n);
  }

  lemma DroppedBytes(s: Sent, fieldBytes: nat)
    requires s.SentPrimary? && s.dropped <= 3 && s.dropped <= fieldBytes && ControlOf(s) < 256
    ensures FlagBytes(ControlOf(s), fieldBytes) == fieldBytes - s.dropped
  {
    hide Orders.Has, ControlOf;
    ControlBits(s);
  }

  lemma BodyRoundTrip(st: Sticky, s: Sent, d: seq<byte>, pos: nat)
    requires st.Valid() && s.SentPrimary? && Sendable(st, s) && ControlOf(s) < 256
    requires Stands(d, pos, BoundsCode(s.clipping, st.bounds))
    requires Stands(d, pos + |BoundsCode(s.clipping, st.bounds)|,
                    Code(LayoutOf(s.orderType).value, |s.vals|, st.fields[s.orderType], s.vals, s.flags, s.delta))
    ensures var b := TakeBody(st.(orderType := Some(s.orderType)), ControlOf(s), s.orderType, s.flags, d, pos);
            && b.0 == After(st, s) && b.1.Ok? && [Render(b.1.value.v)] == ActionsOf(st, s)
            && b.1.value.next == pos + |BoundsCode(s.clipping, st.bounds)|
                                 + |Code(LayoutOf(s.orderType).value, |s.vals|, st.fields[s.orderType], s.vals,
                                         s.flags, s.delta)|
  {
    hide Code, Codable, DecodeFields, LayoutOf, BoundsCode, TakeBounds, ControlOf, Stands, ClippingOk, Orders.Has,
         BoundsAfter, FieldBytes;
    ControlBits(s);
    if s.clipping.NewBounds? {
      BoundsRoundTrip(s.clipping, st.bounds, d, pos);
    } else {
      NoBoundsCode(s.clipping, st.bounds);
    }
    FieldsAt(LayoutOf(s.orderType).value, st.fields[s.orderType], s.vals, s.flags, s.delta, d,
             pos + |BoundsCode(s.clipping, st.bounds)|);
  }

  lemma NoBoundsCode(c: Clipping, b: Bounds)
    requires !c.NewBounds? && ClippingOk(c, b)
    ensures BoundsCode(c, b) == [] && BoundsAfter(c, b) == b
  {
  }

  lemma FieldsAt(l: Layout, prev: seq<Value>, vals: seq<Value>, flags: nat, delta: bool, d: seq<byte>, pos: nat)
    requires |l| == |prev| == |vals| && Codable(l, prev, vals, flags, delta)
    requires Stands(d, pos, Code(l, |vals|, prev, vals, flags, delta))
    ensures DecodeFields(l, prev, flags, delta, d, pos)
            == Decoding(vals, pos + |Code(l, |vals|, prev, vals, flags, delta)|, None)
  {
    hide Code, DecodeFields;
    OrderFieldsRoundTrip(l, prev, vals, flags, delta, d, pos);
  }

  lemma SecondaryRoundTrip(t: byte, extra: nat, payload: seq<byte>, d: seq<byte>, pos: nat)
    requires extra < 0x1_0000 && 7 <= |payload| < 0x1_0000 + 7
    requires Stands(d, pos, [3] + Le16(|payload| - 7) + Le16(extra) + [t] + payload)
    ensures pos < |d| && d[pos] == 3
    ensures TakeSecondary(d, pos + 1) == Ok(Taken(Cache(t, extra, payload), pos + 6 + |payload|))
  {
    hide Stands, Le16;
    var a, b := Le16(|payload| - 7), Le16(extra);
    var head: seq<byte> := [3];
    StandsSplit(d, pos, head + a + b + [t], payload);
    StandsSplit(d, pos, head + a + b, [t]);
    StandsSplit(d, pos, head + a, b);
    StandsSplit(d, pos, head, a);
    StandsByte(d, pos, 3);
    StandsWord(d, pos + 1, |payload| - 7);
    StandsWord(d, pos + 3, extra);
    StandsByte(d, pos + 5, t);
    StandsWhole(d, pos + 6, payload);
  }

  // ---- Whole streams ---------------------------------------------------------------------------

  ghost predicate Stream(st: Sticky, os: seq<Sent>)
    requires st.Valid()
    decreases |os|
  {
    os == [] || (Sendable(st, os[0]) && Stream(After(st, os[0]), os[1..]))
  }

  ghost function StreamBytes(st: Sticky, os: seq<Sent>): seq<byte>
    requires st.Valid() && Stream(st, os)
    decreases |os|
  {
    if os == [] then [] else Bytes(st, os[0]) + StreamBytes(After(st, os[0]), os[1..])
  }

  ghost function StreamAfter(st: Sticky, os: seq<Sent>): (r: Sticky)
    requires st.Valid() && Stream(st, os)
    ensures r.Valid()
    decreases |os|
  {
    if os == [] then st else StreamAfter(After(st, os[0]), os[1..])
  }

  ghost function StreamActions(st: Sticky, os: seq<Sent>): seq<Action>
    requires st.Valid() && Stream(st, os)
    decreases |os|
  {
    if os == [] then [] else ActionsOf(st, os[0]) + StreamActions(After(st, os[0]), os[1..])
  }

  function AltCount(os: seq<Sent>): nat {
    if os == [] then 0 else (if os[0].SentAlt? then 1 else 0) + AltCount(os[1..])
  }

  lemma {:induction false} AltCountBound(os: seq<Sent>)
    ensures AltCount(os) <= |os|
    decreases |os|
  {
    if os != [] { AltCountBound(os[1..]); }
  }

  lemma {:induction false} ParseRoundTrip(st: Sticky, os: seq<Sent>, d: seq<byte>, pos: nat, number: nat, orders: nat,
                                          skipped: nat)
    requires st.Valid() && Stream(st, os) && pos <= |d| && d[pos..] == StreamBytes(st, os)
    requires number == orders + skipped + |os|
    ensures AltCount(os) <= |os|
    ensures Parse(st, d, pos, number, orders, skipped)
            == Parsed(StreamAfter(st, os), StreamActions(st, os),
                      Ok((orders + |os| - AltCount(os), skipped + AltCount(os))))
    decreases |os|
  {
    hide Sendable, Bytes, ActionsOf, After, Parse, Sticky.Valid;
    AltCountBound(os);
    if os == [] {
      ParseEnd(st, d, pos, number, orders, skipped);
    } else {
      var s, st' := os[0], After(st, os[0]);
      var b, rest := Bytes(st, s), StreamBytes(st', os[1..]);
      assert d[pos..] == b + rest;
      assert Stands(d, pos, b) by { assert d[pos..pos + |b|] == d[pos..][..|b|]; }
      assert d[pos + |b|..] == d[pos..][|b|..] == rest;
      AltCountBound(os[1..]);
      var alt := s.SentAlt?;
      ParseRoundTrip(st', os[1..], d, pos + |b|, number,
                     if alt then orders else orders + 1, if alt then skipped + 1 else skipped);
      OneOrder(st, s, d, pos, number, orders, skipped);
    }
  }

  /** One turn of the parser consumes exactly one order, and a secondary order is stepped over whatever it holds. */
  lemma OneOrder(st: Sticky, s: Sent, d: seq<byte>, pos: nat, number: nat, orders: nat, skipped: nat)
    requires st.Valid() && Sendable(st, s) && Stands(d, pos, Bytes(st, s)) && orders + skipped < number
    ensures var next := pos + |Bytes(st, s)|;
            var r := Parse(After(st, s), d, next, number,
                           if s.SentAlt? then orders else orders + 1, if s.SentAlt? then skipped + 1 else skipped);
            next <= |d| && Parse(st, d, pos, number, orders, skipped) == r.(actions := ActionsOf(st, s) + r.actions)
  {
    hide TakePrimary, TakeSecondary, Parse, Sticky.Valid, Orders.Has, AltSize, Bytes, After, ActionsOf, Sendable,
         Stands;
    OrderStands(st, s, d, pos);
    ParseStep(st, d, pos, number, orders, skipped);
    if s.SentAlt? {
      var r := Parse(st, d, pos + 1 + |s.body|, number, orders, skipped + 1);
      assert r.(actions := [] + r.actions) == r;
    }
  }

  /** What the parser finds where an order stands. */
  lemma OrderStands(st: Sticky, s: Sent, d: seq<byte>, pos: nat)
    requires st.Valid() && Sendable(st, s) && Stands(d, pos, Bytes(st, s))
    ensures pos < |d| && pos + |Bytes(st, s)| <= |d|
    ensures s.SentPrimary? ==>
              && Orders.Has(d[pos], TS_STANDARD) && !Orders.Has(d[pos], TS_SECONDARY)
              && var p := TakePrimary(st, d[pos], d, pos + 1);
                p.0 == After(st, s) && p.1.Ok? && [Render(p.1.value.v)] == ActionsOf(st, s)
                && p.1.value.next == pos + |Bytes(st, s)|
    ensures s.SentSecondary? ==>
              && Orders.Has(d[pos], TS_STANDARD) && Orders.Has(d[pos], TS_SECONDARY)
              && TakeSecondary(d, pos + 1)
                 == Ok(Taken(Cache(s.orderType, s.extraFlags, s.payload), pos + |Bytes(st, s)|))
              && ActionsOf(st, s) == [Cache(s.orderType, s.extraFlags, s.payload)] && After(st, s) == st
    ensures s.SentAlt? ==>
              && !Orders.Has(d[pos], TS_STANDARD) && AltSize(d[pos]) == Some(|s.body|)
              && |Bytes(st, s)| == 1 + |s.body| && ActionsOf(st, s) == [] && After(st, s) == st
  {
    hide TakePrimary, TakeSecondary, After, ActionsOf, Bytes, Sendable, Stands, Orders.Has, AltSize, Sticky.Valid;
    if s.SentPrimary? {
      PrimaryStands(st, s, d, pos);
    } else if s.SentSecondary? {
      SecondaryStands(st, s, d, pos);
    } else {
      AltStands(st, s, d, pos);
    }
  }

  lemma PrimaryStands(st: Sticky, s: Sent, d: seq<byte>, pos: nat)
    requires st.Valid() && s.SentPrimary? && Sendable(st, s) && Stands(d, pos, Bytes(st, s))
    ensures pos < |d| && pos + |Bytes(st, s)| <= |d| && d[pos] == ControlOf(s)
    ensures Orders.Has(d[pos], TS_STANDARD) && !Orders.Has(d[pos], TS_SECONDARY)
    ensures var p := TakePrimary(st, d[pos], d, pos + 1);
            p.0 == After(st, s) && p.1.Ok? && [Render(p.1.value.v)] == ActionsOf(st, s)
            && p.1.value.next == pos + |Bytes(st, s)|
  {
    hide TakePrimary, LayoutOf, Codable, FlagCode, Code, BoundsCode, After, ActionsOf, ControlOf, Bytes, Orders.Has;
    PrimaryRoundTrip(st, s, d, pos);
    DroppedAtMost3(st, s);
    ControlBits(s);
  }

  lemma DroppedAtMost3(st: Sticky, s: Sent)
    requires st.Valid() && s.SentPrimary? && Sendable(st, s)
    ensures s.dropped <= 3
  {
    hide LayoutOf, Codable, Code, BoundsCode, ClippingOk;
  }

  lemma SecondaryStands(st: Sticky, s: Sent, d: seq<byte>, pos: nat)
    requires st.Valid() && s.SentSecondary? && Sendable(st, s) && Stands(d, pos, Bytes(st, s))
    ensures pos < |d| && pos + |Bytes(st, s)| <= |d| && After(st, s) == st
    ensures Orders.Has(d[pos], TS_STANDARD) && Orders.Has(d[pos], TS_SECONDARY)
    ensures TakeSecondary(d, pos + 1) == Ok(Taken(Cache(s.orderType, s.extraFlags, s.payload), pos + |Bytes(st, s)|))
    ensures ActionsOf(st, s) == [Cache(s.orderType, s.extraFlags, s.payload)]
  {
    hide TakeSecondary, Sticky.Valid, Le16, LayoutOf, Codable, FieldBytes, Code, ClippingOk, Orders.Has;
    SecondaryBits();
    SecondaryRoundTrip(s.orderType, s.extraFlags, s.payload, d, pos);
  }

  lemma SecondaryBits()
    ensures Orders.Has(3, TS_STANDARD) && Orders.Has(3, TS_SECONDARY)
  {
  }

  lemma AltStands(st: Sticky, s: Sent, d: seq<byte>, pos: nat)
    requires st.Valid() && s.SentAlt? && Sendable(st, s) && Stands(d, pos, Bytes(st, s))
    ensures pos < |d| && pos + |Bytes(st, s)| <= |d| && After(st, s) == st
    ensures !Orders.Has(d[pos], TS_STANDARD) && AltSize(d[pos]) == Some(|s.body|)
    ensures |Bytes(st, s)| == 1 + |s.body| && ActionsOf(st, s) == []
  {
    hide Sticky.Valid;
    StandsSplit(d, pos, [s.control], s.body);
    StandsByte(d, pos, s.control);
  }

  /** Every order stream, however encoded: all orders come back exactly, in order, the decoder's sticky state ends
      equal to the encoder's, and the counts are the ones sent. */
  lemma StreamRoundTrip(st: Sticky, os: seq<Sent>)
    requires st.Valid() && Stream(st, os) && |os| < 0x1_0000
    ensures AltCount(os) <= |os|
    ensures ParseUpdate(st, Le16(|os|) + StreamBytes(st, os))
            == Parsed(StreamAfter(st, os), StreamActions(st, os), Ok((|os| - AltCount(os), AltCount(os))))
  {
    hide Parse, StreamBytes, StreamActions, StreamAfter, Stream, Le16, Sticky.Valid;
    var d := Le16(|os|) + StreamBytes(st, os);
    assert d[0..2] == Le16(|os|);
    StandsWord(d, 0, |os|);
    assert d[2..] == StreamBytes(st, os);
    ParseRoundTrip(st, os, d, 2, |os|, 0, 0);
  }
}
