/**
 The order-stream processor: decodes an Orders update and renders it, keeping clip bounds, order type,
 fields and caches from update to update.
 */
module Processor {
  import opened Options
  import opened Bits
  import opened Rects
  import opened Pictures
  import opened Tables
  import opened ScreenCopy
  import opened Canvas
  import opened Lines
  import opened Glyphs
  import opened Fields
  import opened Orders
  import opened Bitmaps
  import opened Render

  /** Union of the pixels touched (if any), orders decoded, orders skipped. */
  datatype Outcome = Outcome(dirty: Option<Rect>, orders: nat, skipped: nat)

  // ---- Effect of a parsed stream --------------------------------------------------------

  function AddDirty(dirty: Option<Rect>, r: Rect): Option<Rect> {
    if r.IsEmpty() then dirty else Some(if dirty.Some? then dirty.value.Union(r) else r)
  }

  /** World and dirty rectangle after an action. */
  ghost function Execute(w: World, dirty: Option<Rect>, a: Action, rle: RleCodec): (r: (World, Option<Rect>))
    requires w.Valid()
    ensures r.0.Valid() && SameSize(w.pic, r.0.pic)
  {
    match a
    case Render(o) =>
      DrawKeepsValid(w, o);
      var d := DrawOrder(w, o);
      (d.0, AddDirty(dirty, d.1))
    case Cache(t, extra, payload) =>
      ApplyValid(Caches(w.bitmaps, w.glyphs), t, extra, payload, rle);
      var c := ApplySecondary(Caches(w.bitmaps, w.glyphs), t, extra, payload, rle);
      (w.(bitmaps := c.bitmaps, glyphs := c.glyphs), dirty)
  }

  ghost function ExecuteAll(w: World, actions: seq<Action>, rle: RleCodec): (r: (World, Option<Rect>))
    requires w.Valid()
    ensures r.0.Valid() && SameSize(w.pic, r.0.pic)
    decreases |actions|
  {
    if actions == [] then (w, None)
    else
      var p := ExecuteAll(w, actions[..|actions| - 1], rle);
      Execute(p.0, p.1, actions[|actions| - 1], rle)
  }

  lemma ExecuteNext(w: World, done: seq<Action>, a: Action, rle: RleCodec)
    requires w.Valid()
    ensures var p := ExecuteAll(w, done, rle); ExecuteAll(w, done + [a], rle) == Execute(p.0, p.1, a, rle)
  {
    hide Execute;
    assert (done + [a])[..|done|] == done;
  }

  // ---- Dirty regions over whole updates ------------------------------------------------------

  ghost predicate LinesDrawable(actions: seq<Action>) {
    forall i :: 0 <= i < |actions| && actions[i].Render? && actions[i].order.orderType == LINE_TO ==>
      LineDrawable(actions[i].order.vals)
  }

  predicate LinesBounded(actions: seq<Action>, b: int) {
    forall i :: 0 <= i < |actions| && actions[i].Render? && actions[i].order.orderType == LINE_TO ==>
      LineBounded(actions[i].order.vals, b)
  }

  ghost predicate CoversOption(p: Picture, q: Picture, d: Option<Rect>)
    requires p.Valid() && q.Valid()
  {
    if d.None? then p == q else Covers(p, q, d.value) && !d.value.IsEmpty()
  }

  lemma {:induction false} AllCovered(w: World, actions: seq<Action>, rle: RleCodec)
    requires w.Valid() && LinesDrawable(actions)
    ensures var r := ExecuteAll(w, actions, rle); CoversOption(w.pic, r.0.pic, r.1)
    decreases |actions|
  {
    hide Execute, Covers;
    if actions != [] {
      var n := |actions| - 1;
      var a := actions[n];
      AllCovered(w, actions[..n], rle);
      var p := ExecuteAll(w, actions[..n], rle);
      NextCovered(w.pic, p.0, p.1, a, rle);
    }
  }

  lemma NextCovered(p: Picture, w: World, dirty: Option<Rect>, a: Action, rle: RleCodec)
    requires p.Valid() && w.Valid() && CoversOption(p, w.pic, dirty)
    requires a.Render? && a.order.orderType == LINE_TO ==> LineDrawable(a.order.vals)
    ensures var r := Execute(w, dirty, a, rle); CoversOption(p, r.0.pic, r.1)
  {
    hide DrawOrder, Covers, ApplySecondary, Rect.Union;
    if a.Render? {
      DrawCovers(w, a.order);
      var d := DrawOrder(w, a.order);
      if d.1.IsEmpty() {
        Unchanged(w.pic, d.0.pic, d.1);
      } else if dirty.Some? {
        CoversJoined(p, w.pic, d.0.pic, dirty.value, d.1);
        JoinedNonempty(p, w.pic, d.0.pic, dirty.value, d.1);
      }
    }
  }

  lemma JoinedNonempty(p: Picture, q: Picture, r: Picture, a: Rect, b: Rect)
    requires p.Valid() && q.Valid() && r.Valid() && Covers(p, q, a) && Covers(q, r, b) && !a.IsEmpty()
    ensures !a.Union(b).IsEmpty()
  {
    UnionCovers(a, b);
  }

  lemma Unchanged(p: Picture, q: Picture, d: Rect)
    requires p.Valid() && q.Valid() && Covers(p, q, d) && d.IsEmpty()
    ensures p == q
  {
    SamePicture(p, q);
  }

  // ---- Line coordinates stay small: a byte of stream moves one by at most 128 -----------------

  predicate FieldBounded(v: Value, b: int) { -b <= NumOf(v) <= b }

  ghost predicate AllBounded(l: Layout, vals: seq<Value>, b: int)
    requires |l| == |vals|
  {
    forall k :: 0 <= k < |l| && l[k].kind == Coord ==> FieldBounded(vals[k], b)
  }

  lemma KindBounded(k: Kind, prev: Value, delta: bool, d: seq<byte>, pos: nat, b: int)
    requires pos <= |d| && FieldBounded(prev, b) && 0x8000 <= b && b + 128 < 0x5000_0000 && k == Coord
    ensures var t := ReadKind(k, prev, delta, d, pos);
            t.Ok? ==> FieldBounded(t.value.v, b + 128) && pos + 1 <= t.value.next
  {
  }

  /** The bound grows with the bytes read, at most 128 a byte. */
  lemma {:induction false} DecodeBounded(l: Layout, k: nat, vals: seq<Value>, flags: nat, delta: bool, d: seq<byte>,
                                         pos: nat, b: int)
    requires k <= |l| == |vals| && pos <= |d| && AllBounded(l, vals, b) && 0x8000 <= b && b + 128 * |d| < 0x4000_0000
    ensures var s := Upto(l, k, vals, flags, delta, d, pos); AllBounded(l, s.vals, b + 128 * (s.pos - pos))
    decreases k
  {
    hide BitSet, ReadKind;
    if k > 0 {
      DecodeBounded(l, k - 1, vals, flags, delta, d, pos, b);
      var s := Upto(l, k - 1, vals, flags, delta, d, pos);
      NextSlot(l, k - 1, vals, flags, delta, d, pos);
      if s.error.None? && l[k - 1].kind == Coord {
        KindBounded(Coord, s.vals[k - 1], delta, d, s.pos, b + 128 * (s.pos - pos));
      }
    }
  }

  ghost predicate StickyBounded(st: Sticky, b: int)
    requires st.Valid()
  {
    LayoutOf(LINE_TO).Some? && |st.fields[LINE_TO]| == |LayoutOf(LINE_TO).value|
        && AllBounded(LayoutOf(LINE_TO).value, st.fields[LINE_TO], b)
  }

  lemma LineFieldsBounded(vals: seq<Value>, b: int)
    requires LayoutOf(LINE_TO).Some? && |vals| == |LayoutOf(LINE_TO).value|
             && AllBounded(LayoutOf(LINE_TO).value, vals, b)
    ensures LineBounded(vals, b)
  {
    var l := LayoutOf(LINE_TO).value;
    assert l[1].kind == Coord && l[2].kind == Coord && l[3].kind == Coord && l[4].kind == Coord;
    assert FieldBounded(vals[1], b) && FieldBounded(vals[2], b) && FieldBounded(vals[3], b) && FieldBounded(vals[4], b);
  }

  lemma PrimaryBounded(st: Sticky, control: byte, d: seq<byte>, pos: nat, b: int)
    requires st.Valid() && pos <= |d| && StickyBounded(st, b) && 0x8000 <= b && b + 128 * |d| < 0x4000_0000
    ensures var r := TakePrimary(st, control, d, pos);
            && (r.1.Ok? ==> StickyBounded(r.0, b + 128 * (r.1.value.next - pos)))
            && (r.1.Ok? && r.1.value.v.orderType == LINE_TO
                ==> LineBounded(r.1.value.v.vals, b + 128 * (r.1.value.next - pos)))
  {
    hide TakeBounds, TakeFlags, Orders.Has, FieldBytes, FlagBytes, Upto, AllBounded, LayoutOf, LineBounded;
    var r := TakePrimary(st, control, d, pos);
    if r.1.Ok? {
      var t := if Orders.Has(control, TS_TYPE_CHANGE) then TakeU8(d, pos)
               else if st.orderType.Some? then Ok(Taken(st.orderType.value, pos)) else Err(NoOrderType(control));
      var orderType := t.value.v;
      var flags := TakeFlags(d, t.value.next, FlagBytes(control, FieldBytes(orderType).value));
      BodyBounded(st.(orderType := Some(orderType)), control, orderType, flags.value.v, d, flags.value.next, b);
      Widen(r.0, b + 128 * (r.1.value.next - flags.value.next), b + 128 * (r.1.value.next - pos));
      if orderType == LINE_TO {
        WidenLine(r.1.value.v.vals, b + 128 * (r.1.value.next - flags.value.next), b + 128 * (r.1.value.next - pos));
      }
    }
  }

  lemma Widen(st: Sticky, b: int, c: int)
    requires st.Valid() && StickyBounded(st, b) && b <= c
    ensures StickyBounded(st, c)
  {
    hide LayoutOf;
  }

  lemma WidenLine(v: seq<Value>, b: int, c: int)
    requires LineBounded(v, b) && b <= c
    ensures LineBounded(v, c)
  {
  }

  lemma BodyBounded(st: Sticky, control: byte, orderType: byte, flags: nat, d: seq<byte>, pos: nat, b: int)
    requires st.Valid() && pos <= |d| && StickyBounded(st, b) && 0x8000 <= b && b + 128 * |d| < 0x4000_0000
    ensures var r := TakeBody(st, control, orderType, flags, d, pos);
            r.1.Ok? ==> r.1.value.v.orderType == orderType && StickyBounded(r.0, b + 128 * (r.1.value.next - pos))
                        && (orderType == LINE_TO ==> LineBounded(r.1.value.v.vals, b + 128 * (r.1.value.next - pos)))
  {
    hide TakeBounds, Orders.Has, Upto, AllBounded, LayoutOf, LineBounded;
    var r := TakeBody(st, control, orderType, flags, d, pos);
    if r.1.Ok? {
      var read := Orders.Has(control, TS_BOUNDS) && !Orders.Has(control, TS_ZERO_BOUNDS_DELTAS);
      var p := if read then TakeBounds(st.bounds, d, pos).1.value else pos;
      if orderType == LINE_TO {
        var l := LayoutOf(LINE_TO).value;
        DecodeBounded(l, |l|, st.fields[LINE_TO], flags, Orders.Has(control, TS_DELTA_COORDINATES), d, p, b);
        WidenAll(l, r.1.value.v.vals, b + 128 * (r.1.value.next - p), b + 128 * (r.1.value.next - pos));
        LineFieldsBounded(r.1.value.v.vals, b + 128 * (r.1.value.next - pos));
      } else {
        assert r.0.fields[LINE_TO] == st.fields[LINE_TO];
        WidenAll(LayoutOf(LINE_TO).value, st.fields[LINE_TO], b, b + 128 * (r.1.value.next - pos));
      }
    }
  }

  lemma WidenAll(l: Layout, vals: seq<Value>, b: int, c: int)
    requires |l| == |vals| && AllBounded(l, vals, b) && b <= c
    ensures AllBounded(l, vals, c)
  {
  }

  lemma {:induction false} ParseBounded(st: Sticky, d: seq<byte>, pos: nat, number: nat, orders: nat, skipped: nat,
                                        b: int)
    requires st.Valid() && pos <= |d| && StickyBounded(st, b + 128 * pos) && 0x8000 <= b && b + 256 * |d| < 0x4000_0000
    ensures var p := Parse(st, d, pos, number, orders, skipped);
            LinesBounded(p.actions, b + 128 * |d|) && (p.result.Ok? ==> StickyBounded(p.st, b + 128 * |d|))
    decreases |d| - pos
  {
    hide TakePrimary, TakeSecondary, Orders.Has, StickyBounded, LineBounded, AltSize;
    Widen(st, b + 128 * pos, b + 128 * |d|);
    if orders + skipped < number && pos < |d| {
      var control := d[pos];
      if !Orders.Has(control, TS_STANDARD) {
        if AltSize(control).Some? && |d| - (pos + 1) >= AltSize(control).value {
          var next := pos + 1 + AltSize(control).value;
          Widen(st, b + 128 * pos, b + 128 * next);
          ParseBounded(st, d, next, number, orders, skipped + 1, b);
        }
      } else if Orders.Has(control, TS_SECONDARY) {
        var s := TakeSecondary(d, pos + 1);
        if s.Ok? {
          Widen(st, b + 128 * pos, b + 128 * s.value.next);
          ParseBounded(st, d, s.value.next, number, orders + 1, skipped, b);
          SecondaryIsCache(d, pos + 1);
        }
      } else {
        Widen(st, b + 128 * pos, b + 128 * (pos + 1));
        PrimaryBounded(st, control, d, pos + 1, b + 128 * (pos + 1));
        var p := TakePrimary(st, control, d, pos + 1);
        if p.1.Ok? {
          var next := p.1.value.next;
          assert b + 128 * (pos + 1) + 128 * (next - (pos + 1)) == b + 128 * next;
          if p.1.value.v.orderType == LINE_TO {
            WidenLine(p.1.value.v.vals, b + 128 * next, b + 128 * |d|);
          }
          ParseBounded(p.0, d, next, number, orders + 1, skipped, b);
        }
      }
    }
  }

  lemma SecondaryIsCache(d: seq<byte>, pos: nat)
    requires pos <= |d| && TakeSecondary(d, pos).Ok?
    ensures TakeSecondary(d, pos).value.v.Cache?
  {
  }

  /** Outcome of one update on a given state. */
  ghost function Processed(st: Sticky, w: World, d: seq<byte>, rle: RleCodec): (Sticky, World, Result<Outcome>)
    requires st.Valid() && w.Valid()
  {
    var p := ParseUpdate(st, d);
    var e := ExecuteAll(w, p.actions, rle);
    (p.st, e.0, if p.result.Ok? then Ok(Outcome(e.1, p.result.value.0, p.result.value.1)) else Err(p.result.error))
  }

  /** Whenever an update is processed without error, every canvas pixel it changed lies in the rectangle it reports,
      and no more orders were taken than declared. Line coordinates must stay where line drawing does not overflow. */
  lemma DirtyRegionSound(st: Sticky, w: World, d: seq<byte>, rle: RleCodec)
    requires st.Valid() && w.Valid() && LinesDrawable(ParseUpdate(st, d).actions)
    requires Processed(st, w, d, rle).2.Ok?
    ensures var r := Processed(st, w, d, rle);
            && r.0.Valid() && r.1.Valid() && SameSize(w.pic, r.1.pic)
            && CoversOption(w.pic, r.1.pic, r.2.value.dirty)
            && |d| >= 2 && r.2.value.orders + r.2.value.skipped <= TakeU16(d, 0).value.v
  {
    hide Parse, ExecuteAll, LinesDrawable;
    AllCovered(w, ParseUpdate(st, d).actions, rle);
  }

  /** They do while the stream is short: a byte of it moves a coordinate by at most 128. */
  lemma ShortStreamsAreBounded(st: Sticky, d: seq<byte>, b: int)
    requires st.Valid() && StickyBounded(st, b) && 0x8000 <= b && b + 128 * |d| <= LINE_BOUND
    ensures var p := ParseUpdate(st, d);
            LinesDrawable(p.actions) && (p.result.Ok? ==> StickyBounded(p.st, b + 128 * |d|))
  {
    hide Parse, StickyBounded, LinesBounded, LinesDrawable;
    if |d| >= 2 {
      Widen(st, b, b + 128 * 2);
      ParseBounded(st, d, 2, TakeU16(d, 0).value.v, 0, 0, b);
      BoundedAreDrawable(ParseUpdate(st, d).actions, b + 128 * |d|);
    } else {
      NothingDrawable();
    }
  }

  lemma NothingDrawable()
    ensures LinesDrawable([])
  {
  }

  lemma BoundedAreDrawable(actions: seq<Action>, b: int)
    requires LinesBounded(actions, b) && b <= LINE_BOUND
    ensures LinesDrawable(actions)
  {
    hide LineDrawable;
    forall i | 0 <= i < |actions| && actions[i].Render? && actions[i].order.orderType == LINE_TO
      ensures LineDrawable(actions[i].order.vals)
    {
      BoundedIsDrawable(actions[i].order.vals);
    }
  }

  // ---- A run of the processor --------------------------------------------------------------

  datatype Start = Start(st: Sticky, w: World, d: seq<byte>, rle: RleCodec) {
    ghost predicate Valid() { st.Valid() && w.Valid() }

    ghost function Done(): (Sticky, World, Result<Outcome>)
      requires Valid()
    {
      Processed(st, w, d, rle)
    }
  }

  /** The update parses to the actions done so far, then to whatever is left; and they led to the world `w`. */
  ghost predicate Progress(run: Start, number: nat, done: seq<Action>, st: Sticky, w: World, dirty: Option<Rect>,
                           pos: nat, orders: nat, skipped: nat)
    requires run.Valid()
  {
    && ExecuteAll(run.w, done, run.rle) == (w, dirty)
    && st.Valid() && pos <= |run.d|
    && var q := Parse(st, run.d, pos, number, orders, skipped);
      ParseUpdate(run.st, run.d) == q.(actions := done + q.actions)
  }

  lemma NothingDone(run: Start)
    requires run.Valid()
    ensures var n := TakeU16(run.d, 0);
            if n.Err? then run.Done() == (run.st, run.w, Err(n.error))
            else Progress(run, n.value.v, [], run.st, run.w, None, n.value.next, 0, 0)
  {
    hide Parse, Sticky.Valid, World.Valid;
  }

  lemma Finished(run: Start, number: nat, done: seq<Action>, st: Sticky, w: World, dirty: Option<Rect>, pos: nat,
                 orders: nat, skipped: nat)
    requires run.Valid() && Progress(run, number, done, st, w, dirty, pos, orders, skipped)
    requires pos == |run.d| || orders + skipped >= number
    ensures run.Done() == (st, w, Ok(Outcome(dirty, orders, skipped)))
  {
    hide ExecuteAll, Sticky.Valid, World.Valid;
    assert done + [] == done;
  }

  /** A stream ended early, by an error or an unknown order. */
  lemma Ended(run: Start, done: seq<Action>, st: Sticky, w: World, dirty: Option<Rect>, result: Result<(nat, nat)>)
    requires run.Valid() && ExecuteAll(run.w, done, run.rle) == (w, dirty)
    requires ParseUpdate(run.st, run.d) == Parsed(st, done + [], result)
    ensures run.Done() == (st, w, if result.Ok? then Ok(Outcome(dirty, result.value.0, result.value.1))
                           else Err(result.error))
  {
    hide ExecuteAll, Sticky.Valid, World.Valid;
    assert done + [] == done;
  }

  lemma AltStep(run: Start, number: nat, done: seq<Action>, st: Sticky, w: World, dirty: Option<Rect>, pos: nat,
                orders: nat, skipped: nat)
    requires run.Valid() && Progress(run, number, done, st, w, dirty, pos, orders, skipped)
    requires pos < |run.d| && orders + skipped < number && !Orders.Has(run.d[pos], TS_STANDARD)
    ensures var size := AltSize(run.d[pos]);
            if size.None? then run.Done() == (st, w, Ok(Outcome(dirty, orders, skipped + 1)))
            else if |run.d| - (pos + 1) < size.value then run.Done() == (st, w, Err(Eof(run.d, pos + 1, size.value)))
            else Progress(run, number, done, st, w, dirty, pos + 1 + size.value, orders, skipped + 1)
  {
    hide ParseUpdate, Parse, ExecuteAll, Orders.Has, AltSize, Sticky.Valid, World.Valid, Start.Done;
    ParseStep(st, run.d, pos, number, orders, skipped);
    if AltSize(run.d[pos]).None? {
      Ended(run, done, st, w, dirty, Ok((orders, skipped + 1)));
    } else if |run.d| - (pos + 1) < AltSize(run.d[pos]).value {
      Ended(run, done, st, w, dirty, Err(Eof(run.d, pos + 1, AltSize(run.d[pos]).value)));
    }
  }

  lemma CacheStep(run: Start, number: nat, done: seq<Action>, st: Sticky, w: World, dirty: Option<Rect>, pos: nat,
                  orders: nat, skipped: nat)
    requires run.Valid() && Progress(run, number, done, st, w, dirty, pos, orders, skipped)
    requires pos < |run.d| && orders + skipped < number && Orders.Has(run.d[pos], TS_STANDARD)
             && Orders.Has(run.d[pos], TS_SECONDARY)
    ensures w.Valid()
    ensures var s := TakeSecondary(run.d, pos + 1);
            if s.Err? then run.Done() == (st, w, Err(s.error))
            else
              && s.value.v.Cache?
              && var a := ApplySecondary(Caches(w.bitmaps, w.glyphs), s.value.v.orderType, s.value.v.extraFlags,
                                         s.value.v.payload, run.rle);
                Progress(run, number, done + [s.value.v], st, w.(bitmaps := a.bitmaps, glyphs := a.glyphs), dirty,
                         s.value.next, orders + 1, skipped)
  {
    hide ParseUpdate, Parse, ExecuteAll, Execute, ApplySecondary, TakeSecondary, Orders.Has, AltSize, Sticky.Valid,
         World.Valid, Start.Done;
    ParseStep(st, run.d, pos, number, orders, skipped);
    var s := TakeSecondary(run.d, pos + 1);
    if s.Err? {
      Ended(run, done, st, w, dirty, Err(s.error));
    } else {
      SecondaryIsCache(run.d, pos + 1);
      ExecuteNext(run.w, done, s.value.v, run.rle);
      ExecuteCache(w, dirty, s.value.v, run.rle);
      var q := Parse(st, run.d, s.value.next, number, orders + 1, skipped);
      assert done + ([s.value.v] + q.actions) == (done + [s.value.v]) + q.actions;
    }
  }

  lemma RenderStep(run: Start, number: nat, done: seq<Action>, st: Sticky, w: World, dirty: Option<Rect>, pos: nat,
                   orders: nat, skipped: nat)
    requires run.Valid() && Progress(run, number, done, st, w, dirty, pos, orders, skipped)
    requires pos < |run.d| && orders + skipped < number && Orders.Has(run.d[pos], TS_STANDARD)
             && !Orders.Has(run.d[pos], TS_SECONDARY)
    ensures st.Valid() && w.Valid()
    ensures var p := TakePrimary(st, run.d[pos], run.d, pos + 1);
            if p.1.Err? then run.Done() == (p.0, w, Err(p.1.error))
            else
              && var o := DrawOrder(w, p.1.value.v);
                Progress(run, number, done + [Render(p.1.value.v)], p.0, o.0, AddDirty(dirty, o.1), p.1.value.next,
                         orders + 1, skipped)
  {
    hide ParseUpdate, Parse, ExecuteAll, Execute, DrawOrder, TakePrimary, Orders.Has, AltSize, Sticky.Valid,
         World.Valid, Start.Done;
    ParseStep(st, run.d, pos, number, orders, skipped);
    var p := TakePrimary(st, run.d[pos], run.d, pos + 1);
    if p.1.Err? {
      Ended(run, done, p.0, w, dirty, Err(p.1.error));
    } else {
      var o := p.1.value.v;
      ExecuteNext(run.w, done, Render(o), run.rle);
      ExecuteRender(w, dirty, o, run.rle);
      var q := Parse(p.0, run.d, p.1.value.next, number, orders + 1, skipped);
      assert done + ([Render(o)] + q.actions) == (done + [Render(o)]) + q.actions;
    }
  }

  // ---- The processor -------------------------------------------------------------------------

  class OrderProcessor {
    const canvas: OrderCanvas
    const bitmaps: BitmapCache
    const glyphs: GlyphCache
    const rle: RleCodec
    var bounds: Bounds
    var currentOrderType: Option<byte>
    var fields: map<byte, seq<Value>>

    ghost predicate Valid()
      reads this, canvas, canvas.data, bitmaps, glyphs
    {
      canvas.Valid() && bitmaps.Valid() && State().Valid()
    }

    ghost function State(): Sticky
      reads this
    {
      Sticky(bounds, currentOrderType, fields)
    }

    ghost function Abs(): World
      reads this, canvas, canvas.data, bitmaps, glyphs
    {
      World(canvas.Pic(), bitmaps.tables, glyphs.glyphs, glyphs.fragments)
    }

    lemma AbsValid()
      requires Valid()
      ensures State().Valid() && Abs().Valid()
    {
    }

    constructor (width: nat, height: nat, rle: RleCodec)
      requires width < 0x1_0000 && height < 0x1_0000
      ensures Valid() && fresh(canvas) && fresh(canvas.data) && fresh(bitmaps) && fresh(glyphs)
      ensures StickyBounded(State(), 0)
    {
      canvas := new OrderCanvas(width, height);
      bitmaps := new BitmapCache();
      glyphs := new GlyphCache();
      this.rle := rle;
      bounds := Bounds(0, 0, 0, 0);
      currentOrderType := None;
      fields := map t: byte | 0 <= t < 256 && LayoutOf(t).Some? :: Zeros(LayoutOf(t).value);
    }

    method ProcessOrders(data: seq<byte>) returns (r: Result<Outcome>)
      requires Valid()
      modifies this, canvas.data, bitmaps, glyphs
      ensures Valid()
      ensures (State(), Abs(), r) == Processed(old(State()), old(Abs()), data, rle)
    {
      hide Progress, Processed, Parse, TakePrimary, TakeSecondary, DrawOrder, ApplySecondary, AltSize, Orders.Has,
           Sticky.Valid, World.Valid;
      AbsValid();
      ghost var run := Start(State(), Abs(), data, rle);
      var c := new Cursor(data);
      var n := c.U16();
      NothingDone(run);
      if n.Err? {
        return Err(n.error);
      }
      var number := n.value;
      var orders, skipped := 0, 0;
      var dirty: Option<Rect> := None;
      ghost var done: seq<Action> := [];
      while orders + skipped < number && c.pos < |data|
        invariant Valid() && c.Valid() && fresh(c) && c.data == data && run.Valid()
        invariant Progress(run, number, done, State(), Abs(), dirty, c.pos, orders, skipped)
        decreases |data| - c.pos
      {
        ghost var at, st, w := c.pos, State(), Abs();
        var control := data[c.pos];
        var _ := c.U8();
        if !Orders.Has(control, TS_STANDARD) {
          AltStep(run, number, done, st, w, dirty, at, orders, skipped);
          var sized := AltSize(control);
          skipped := skipped + 1;
          if sized.None? {
            return Ok(Outcome(dirty, orders, skipped));
          }
          var past := c.Skip(sized.value);
          if past.Err? {
            return Err(past.error);
          }
        } else if Orders.Has(control, TS_SECONDARY) {
          CacheStep(run, number, done, st, w, dirty, at, orders, skipped);
          var s := Secondary(c);
          if s.Err? {
            return Err(s.error);
          }
          done := done + [TakeSecondary(data, at + 1).value.v];
          orders := orders + 1;
        } else {
          RenderStep(run, number, done, st, w, dirty, at, orders, skipped);
          var box := RenderPrimary(c, control);
          if box.Err? {
            return Err(box.error);
          }
          if !box.value.IsEmpty() {
            dirty := Some(if dirty.Some? then dirty.value.Union(box.value) else box.value);
          }
          done := done + [Render(TakePrimary(st, control, data, at + 1).1.value.v)];
          orders := orders + 1;
        }
      }
      Finished(run, number, done, State(), Abs(), dirty, c.pos, orders, skipped);
      r := Ok(Outcome(dirty, orders, skipped));
    }

    method RenderPrimary(c: Cursor, control: byte) returns (r: Result<Rect>)
      requires Valid() && c.Valid()
      modifies this, c`pos, canvas.data, glyphs
      ensures Valid() && c.Valid()
      ensures var t := TakePrimary(old(State()), control, c.data, old(c.pos));
              && State() == t.0
              && if t.1.Err? then r == Err(t.1.error) && Abs() == old(Abs())
                 else
                   && var d := DrawOrder(old(Abs()), t.1.value.v);
                     c.pos == t.1.value.next && Abs() == d.0 && r == Ok(d.1)
    {
      hide TakePrimary, DrawOrder, Sticky.Valid, Picture.Valid, BitmapTables.Valid;
      var o := ParsePrimary(c, control);
      if o.Err? {
        return Err(o.error);
      }
      var box := DrawPrimary(o.value);
      r := Ok(box);
    }

    /** The payload is delimited by the declared length; whether it applies does not matter to the stream. */
    method Secondary(c: Cursor) returns (r: Result<()>)
      requires Valid() && c.Valid()
      modifies c`pos, bitmaps, glyphs`glyphs
      ensures Valid() && c.Valid() && State() == old(State())
      ensures var t := TakeSecondary(c.data, old(c.pos));
              if t.Err? then r == Err(t.error) && Abs() == old(Abs())
              else
                && r == Ok(()) && c.pos == t.value.next && t.value.v.Cache?
                && var a := ApplySecondary(Caches(old(Abs()).bitmaps, old(Abs()).glyphs), t.value.v.orderType,
                                           t.value.v.extraFlags, t.value.v.payload, rle);
                  Abs() == old(Abs()).(bitmaps := a.bitmaps, glyphs := a.glyphs)
    {
      hide ApplySecondary;
      var length :- c.U16();
      var extraFlags :- c.U16();
      var orderType :- c.U8();
      var left := |c.data| - c.pos;
      var payload := c.Bytes(if length + 7 <= left then length + 7 else left);
      ApplyTo(bitmaps, glyphs, orderType, extraFlags, payload.value, rle);
      r := Ok(());
    }

    method ReadBounds(c: Cursor) returns (r: Result<()>)
      requires c.Valid()
      modifies this`bounds, c`pos
      ensures c.Valid()
      ensures var t := TakeBounds(old(bounds), c.data, old(c.pos));
              bounds == t.0 && if t.1.Ok? then r == Ok(()) && c.pos == t.1.value else r == Err(t.1.error)
    {
      hide TakeEdge, TakeEdges, Orders.Has, Signed, Wrap32;
      var flags :- c.U8();
      r := ReadEdges(c, flags);
    }

    method ReadEdges(c: Cursor, flags: byte) returns (r: Result<()>)
      requires c.Valid()
      modifies this`bounds, c`pos
      ensures c.Valid()
      ensures var t := TakeEdges(old(bounds), flags, c.data, old(c.pos));
              bounds == t.0 && if t.1.Ok? then r == Ok(()) && c.pos == t.1.value else r == Err(t.1.error)
    {
      hide TakeEdge, TakeFarEdges, Orders.Has;
      var left :- ReadEdge(c, bounds.left, Orders.Has(flags, 1), Orders.Has(flags, 16));
      bounds := bounds.(left := left);
      var top :- ReadEdge(c, bounds.top, Orders.Has(flags, 2), Orders.Has(flags, 32));
      bounds := bounds.(top := top);
      r := ReadFarEdges(c, flags);
    }

    method ReadFarEdges(c: Cursor, flags: byte) returns (r: Result<()>)
      requires c.Valid()
      modifies this`bounds, c`pos
      ensures c.Valid()
      ensures var t := TakeFarEdges(old(bounds), flags, c.data, old(c.pos));
              bounds == t.0 && if t.1.Ok? then r == Ok(()) && c.pos == t.1.value else r == Err(t.1.error)
    {
      hide TakeEdge, Orders.Has;
      var right :- ReadEdge(c, bounds.right, Orders.Has(flags, 4), Orders.Has(flags, 64));
      bounds := bounds.(right := right);
      var bottom :- ReadEdge(c, bounds.bottom, Orders.Has(flags, 8), Orders.Has(flags, 128));
      bounds := bounds.(bottom := bottom);
      r := Ok(());
    }

    method ParsePrimary(c: Cursor, control: byte) returns (r: Result<Primary>)
      requires State().Valid() && c.Valid()
      modifies this, c`pos
      ensures State().Valid() && c.Valid()
      ensures var t := TakePrimary(old(State()), control, c.data, old(c.pos));
              State() == t.0 && if t.1.Ok? then r == Ok(t.1.value.v) && c.pos == t.1.value.next else r == Err(t.1.error)
    {
      hide Orders.Has, FieldBytes, FlagBytes, TakeFlags, TakeBody, Sticky.Valid;
      if Orders.Has(control, TS_TYPE_CHANGE) {
        var t :- c.U8();
        currentOrderType := Some(t);
      }
      if currentOrderType.None? {
        return Err(NoOrderType(control));
      }
      var orderType := currentOrderType.value;
      ghost var st1 := old(State()).(orderType := Some(orderType));
      assert State() == st1;
      SameFieldsValid(old(State()), st1);
      if FieldBytes(orderType).None? {
        return Err(UnsupportedOrderType(orderType));
      }
      var flags :- ReadFieldFlags(c, FlagBytes(control, FieldBytes(orderType).value));
      r := ParseBody(c, control, orderType, flags);
    }

    method ParseBody(c: Cursor, control: byte, orderType: byte, flags: nat) returns (r: Result<Primary>)
      requires State().Valid() && c.Valid()
      modifies this, c`pos
      ensures State().Valid() && c.Valid()
      ensures var t := TakeBody(old(State()), control, orderType, flags, c.data, old(c.pos));
              State() == t.0 && if t.1.Ok? then r == Ok(t.1.value.v) && c.pos == t.1.value.next else r == Err(t.1.error)
    {
      hide Orders.Has, TakeBounds, LayoutOf, Upto;
      var clip: Option<Rect> := None;
      if Orders.Has(control, TS_BOUNDS) {
        if !Orders.Has(control, TS_ZERO_BOUNDS_DELTAS) {
          var _ :- ReadBounds(c);
        }
        clip := Some(BoundsRect(bounds));
      }
      var delta := Orders.Has(control, TS_DELTA_COORDINATES);
      var layout := LayoutOf(orderType);
      if layout.None? {
        return Err(UnsupportedOrderType(orderType));
      }
      var vals, done := DecodeOrder(layout.value, fields[orderType], c, flags, delta);
      fields := fields[orderType := vals];
      if done.Err? {
        return Err(done.error);
      }
      r := Ok(Primary(orderType, vals, clip));
    }

    method DrawPrimary(o: Primary) returns (r: Rect)
      requires Valid()
      modifies canvas.data, glyphs
      ensures Valid() && State() == old(State())
      ensures (Abs(), r) == DrawOrder(old(Abs()), o)
    {
      hide Painted, Clip, LinePaint, LineBox, Process, PaintDraws, DirtyOf, RopPaint, Window, CodedPaint, BitmapPaint,
           Solid,
           BitmapTables.Get, BitmapTables.Valid, Picture.Valid, Sticky.Valid, DrawText, DrawFastGlyph;
      ghost var w := Abs();
      var v, clip := o.vals, o.clip;
      if o.orderType == DSTBLT {
        r := canvas.DstRop(RectAt(v, 0), clip, ByteAt(v, 4));
      } else if o.orderType == OPAQUE_RECT {
        r := canvas.FillRect(RectAt(v, 0), clip, Rgba(ByteAt(v, 4), ByteAt(v, 5), ByteAt(v, 6), 255));
      } else if o.orderType == PATBLT {
        var rop := ByteAt(v, 4);
        var c := if rop == 0x00 then BLACK else if rop == 0xFF then WHITE else ColourAt(v, 6);
        r := canvas.FillRect(RectAt(v, 0), clip, c);
      } else if o.orderType == SCRBLT {
        r := canvas.CopyRect(RectAt(v, 0), clip, N(v, 5), N(v, 6));
      } else if o.orderType == MEMBLT {
        var tile := bitmaps.tables.Get(NatAt(v, 0) % 256, NatAt(v, 8));
        if tile.None? {
          return NOTHING;
        }
        GetValid(bitmaps.tables, NatAt(v, 0) % 256, NatAt(v, 8));
        r := canvas.BlitBitmap(RectAt(v, 1), clip, tile.value, N(v, 6), N(v, 7));
      } else if o.orderType == LINE_TO {
        r := DrawLine(canvas, clip, N(v, 1), N(v, 2), N(v, 3), N(v, 4), ColourAt(v, 9));
      } else if o.orderType == GLYPH_INDEX {
        r := DrawTextOrder(FullText(v), clip);
      } else if o.orderType == FAST_INDEX {
        r := DrawTextOrder(FastText(v), clip);
      } else if o.orderType == FAST_GLYPH {
        r := DrawFastGlyphOrder(FastText(v), clip);
      } else {
        r := NOTHING;
      }
    }

    method FillTextBg(t: TextOrder, clip: Option<Rect>) returns (r: Rect)
      requires canvas.Valid()
      modifies canvas.data
      ensures canvas.Valid() && (canvas.Pic(), r) == Background(old(canvas.Pic()), t, clip)
    {
      hide Painted, Clip, Solid;
      r := NOTHING;
      if t.box != NOTHING {
        r := canvas.FillRect(t.box, clip, t.back);
      }
    }

    method DrawTextOrder(t: TextOrder, clip: Option<Rect>) returns (r: Rect)
      requires Valid()
      modifies canvas.data, glyphs`fragments
      ensures Valid() && State() == old(State())
      ensures (Abs(), r) == DrawText(old(Abs()), t, clip)
    {
      hide Process, Background, BitmapTables.Valid, Sticky.Valid;
      var bg := FillTextBg(t, clip);
      ghost var p := canvas.Pic();
      NoDraws(p, clip, t.fore);
      var font := Font(glyphs.glyphs, t.cacheId, t.charInc, t.y);
      var _, fg := ProcessGlyphBytes(canvas, clip, glyphs, font, t.fore, t.data, t.x, NOTHING, 0, p, []);
      r := if bg.IsEmpty() then fg else if fg.IsEmpty() then bg else bg.Union(fg);
    }

    method DrawFastGlyphOrder(t: TextOrder, clip: Option<Rect>) returns (r: Rect)
      requires Valid()
      modifies canvas.data, glyphs`glyphs
      ensures Valid() && State() == old(State())
      ensures (Abs(), r) == DrawFastGlyph(old(Abs()), t, clip)
    {
      hide Painted, Clip, GlyphPaint, Background, BitmapTables.Valid, Sticky.Valid, Inserted, Rect.Union;
      r := FillTextBg(t, clip);
      if t.data == [] {
        return;
      }
      var index := t.data[0];
      var g := Lookup(glyphs.glyphs, t.cacheId, index);
      if |t.data| >= 9 {
        g := Some(Glyph(I16At(t.data, 1), I16At(t.data, 3), U16At(t.data, 5), U16At(t.data, 7), t.data[9..]));
        glyphs.Insert(t.cacheId, index, g.value);
      }
      if g.Some? {
        var box := canvas.BlitGlyph(t.x + g.value.x, t.y + g.value.y, g.value.cx, g.value.cy, g.value.aj, clip, t.fore);
        r := if box.IsEmpty() then r else if r.IsEmpty() then box else r.Union(box);
      }
    }
  }

  function Zero(k: Kind): Value {
    match k case Rgb => Colour(Rgba(0, 0, 0, 0)) case Blob => Text([]) case _ => Num(0)
  }

  function Zeros(l: Layout): (vals: seq<Value>)
    ensures |vals| == |l|
  {
    seq(|l|, i requires 0 <= i < |l| => Zero(l[i].kind))
  }

  method ReadEdge(c: Cursor, edge: int, absolute: bool, delta: bool) returns (r: Result<int>)
    requires c.Valid()
    modifies c`pos
    ensures c.Valid() && Matches(TakeEdge(edge, absolute, delta, c.data, old(c.pos)), r, c.pos)
  {
    if absolute {
      var v :- c.U16();
      return Ok(Signed(v, 0x8000));
    }
    if delta {
      var b :- c.U8();
      return Ok(Wrap32(edge + Signed(b, 128)));
    }
    r := Ok(edge);
  }

  method ReadFieldFlags(c: Cursor, n: nat) returns (r: Result<nat>)
    requires c.Valid()
    modifies c`pos
    ensures c.Valid() && Matches(TakeFlags(c.data, old(c.pos), n), r, c.pos)
  {
    var flags, weight := 0, 1;
    for i := 0 to n
      invariant c.Valid() && c.pos == old(c.pos) + i && weight > 0
      invariant var whole, rest := TakeFlags(c.data, old(c.pos), n), TakeFlags(c.data, c.pos, n - i);
                if rest.Ok? then whole == Ok(Taken(flags + weight * rest.value.v, rest.value.next))
                    else whole == Err(rest.error)
    {
      ghost var rest := TakeFlags(c.data, c.pos, n - i);
      var b :- c.U8();
      if rest.Ok? {
        var hi := TakeFlags(c.data, c.pos, n - i - 1).value.v;
        Weigh(weight, b, hi);
      }
      flags := flags + weight * b;
      weight := weight * 256;
    }
    r := Ok(flags);
  }

  lemma Weigh(w: nat, b: nat, hi: nat)
    ensures w * (b + 256 * hi) == w * b + (w * 256) * hi
  {
  }

  lemma NoDraws(p: Picture, clip: Option<Rect>, c: Rgba)
    requires p.Valid()
    ensures PaintDraws(p, [], clip, c) == p && DirtyOf(p, [], clip) == NOTHING
  {
  }

  lemma SameFieldsValid(a: Sticky, b: Sticky)
    requires a.Valid() && a.fields == b.fields
    ensures b.Valid()
  {
  }

  lemma ExecuteRender(w: World, dirty: Option<Rect>, o: Primary, rle: RleCodec)
    requires w.Valid()
    ensures Execute(w, dirty, Render(o), rle) == (DrawOrder(w, o).0, AddDirty(dirty, DrawOrder(w, o).1))
  {
    hide DrawOrder;
  }

  lemma ExecuteCache(w: World, dirty: Option<Rect>, a: Action, rle: RleCodec)
    requires w.Valid() && a.Cache?
    ensures var c := ApplySecondary(Caches(w.bitmaps, w.glyphs), a.orderType, a.extraFlags, a.payload, rle);
            Execute(w, dirty, a, rle) == (w.(bitmaps := c.bitmaps, glyphs := c.glyphs), dirty)
  {
    hide ApplySecondary;
  }
}
