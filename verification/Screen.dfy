/**
 From one end to the other: order streams that a server encodes, cuts into fragments, compresses and groups into PDUs
 end up on the viewer's screen as the picture those orders draw.
 */
module Screen {
  import opened Options
  import opened Bits
  import Mppc
  import MppcPeer
  import FastPath
  import Pipeline
  import Delivery
  import opened Fields
  import opened Orders
  import OrderRoundTrip
  import opened Bitmaps
  import opened Render
  import opened Processor
  import Composite
  import opened Mirror

  // ---- The orders of several streams -----------------------------------------------------------

  /** Streams that the encoder may send one after the other, its sticky state going on from stream to stream. */
  ghost predicate Encodable(st: Sticky, oss: seq<seq<OrderRoundTrip.Sent>>)
    requires st.Valid()
    decreases |oss|, 0
  {
    oss == []
    || (var (rest, last) := (oss[..|oss| - 1], oss[|oss| - 1]);
        Encodable(st, rest) && |last| < 0x1_0000 && OrderRoundTrip.Stream(StateAfter(st, rest), last))
  }

  ghost function StateAfter(st: Sticky, oss: seq<seq<OrderRoundTrip.Sent>>): (r: Sticky)
    requires st.Valid() && Encodable(st, oss)
    ensures r.Valid()
    decreases |oss|, 1
  {
    if oss == [] then st
    else OrderRoundTrip.StreamAfter(StateAfter(st, oss[..|oss| - 1]), oss[|oss| - 1])
  }

  /** One update for each stream. */
  ghost function Encoded(st: Sticky, oss: seq<seq<OrderRoundTrip.Sent>>): (ds: seq<seq<byte>>)
    requires st.Valid() && Encodable(st, oss)
    ensures |ds| == |oss|
    decreases |oss|
  {
    if oss == [] then []
    else
      var (rest, last) := (oss[..|oss| - 1], oss[|oss| - 1]);
      Encoded(st, rest) + [Le16(|last|) + OrderRoundTrip.StreamBytes(StateAfter(st, rest), last)]
  }

  /** What the streams ask the renderer to do. */
  ghost function Asked(st: Sticky, oss: seq<seq<OrderRoundTrip.Sent>>): seq<Action>
    requires st.Valid() && Encodable(st, oss)
    decreases |oss|
  {
    if oss == [] then []
    else
      var (rest, last) := (oss[..|oss| - 1], oss[|oss| - 1]);
      Asked(st, rest) + OrderRoundTrip.StreamActions(StateAfter(st, rest), last)
  }

  // ---- Execution of several streams ----------------------------------------------------------------

  /** What came out dirty before has no part in the effect. */
  lemma DirtyAside(w: World, da: Option<Rects.Rect>, db: Option<Rects.Rect>, a: Action, rle: RleCodec)
    requires w.Valid()
    ensures Execute(w, da, a, rle).0 == Execute(w, db, a, rle).0
  {
    hide DrawOrder, ApplySecondary;
  }

  lemma {:induction false} ExecuteSplit(w: World, a: seq<Action>, b: seq<Action>, rle: RleCodec)
    requires w.Valid()
    ensures ExecuteAll(w, a + b, rle).0 == ExecuteAll(ExecuteAll(w, a, rle).0, b, rle).0
    decreases |b|
  {
    hide Execute, ExecuteAll, World.Valid;
    if b == [] {
      assert a + b == a;
      NothingExecuted(ExecuteAll(w, a, rle).0, rle);
    } else {
      var rest, last := b[..|b| - 1], b[|b| - 1];
      ExecuteSplit(w, a, rest, rle);
      assert a + b == (a + rest) + [last] && b == rest + [last];
      var u := ExecuteAll(w, a, rle).0;
      ExecuteNext(w, a + rest, last, rle);
      ExecuteNext(u, rest, last, rle);
      var p, q := ExecuteAll(w, a + rest, rle), ExecuteAll(u, rest, rle);
      DirtyAside(q.0, p.1, q.1, last, rle);
    }
  }

  lemma NothingExecuted(w: World, rle: RleCodec)
    requires w.Valid()
    ensures ExecuteAll(w, [], rle).0 == w
  {
  }

  /** One encoded stream as an update. */
  lemma OneStream(s: Session, os: seq<OrderRoundTrip.Sent>, rle: RleCodec)
    requires s.Valid() && |os| < 0x1_0000 && OrderRoundTrip.Stream(s.st, os)
    ensures var d := Le16(|os|) + OrderRoundTrip.StreamBytes(s.st, os);
            var t := Turn(s, d, rle);
            && Decodes(s, d, rle) && t.st == OrderRoundTrip.StreamAfter(s.st, os)
            && t.w == ExecuteAll(s.w, OrderRoundTrip.StreamActions(s.st, os), rle).0
            && (LinesDrawable(OrderRoundTrip.StreamActions(s.st, os)) ==> Drawable(s, d))
  {
    hide ParseUpdate, ExecuteAll, LinesDrawable, OrderRoundTrip.StreamBytes, OrderRoundTrip.StreamActions,
         OrderRoundTrip.StreamAfter, OrderRoundTrip.Stream, Drawn, Composite.Good;
    OrderRoundTrip.StreamRoundTrip(s.st, os);
  }

  lemma LinesSplit(a: seq<Action>, b: seq<Action>)
    requires LinesDrawable(a + b)
    ensures LinesDrawable(a) && LinesDrawable(b)
  {
    hide LineDrawable;
    var c := a + b;
    assert forall i :: 0 <= i < |a| ==> a[i] == c[i];
    assert forall i :: 0 <= i < |b| ==> b[i] == c[|a| + i];
  }

  lemma NoUpdates(s: Session, rle: RleCodec)
    requires s.Valid()
    ensures AllDrawable(s, [], rle) && AllDecode(s, [], rle)
  {
  }

  /** All encoded streams decode, and together have the effect of their orders. */
  lemma {:induction false} StreamsDecode(s: Session, oss: seq<seq<OrderRoundTrip.Sent>>, rle: RleCodec)
    requires s.Valid() && Encodable(s.st, oss) && LinesDrawable(Asked(s.st, oss))
    ensures var ds, r := Encoded(s.st, oss), Turns(s, Encoded(s.st, oss), rle);
            && r.st == StateAfter(s.st, oss) && r.w == ExecuteAll(s.w, Asked(s.st, oss), rle).0
            && AllDrawable(s, ds, rle) && AllDecode(s, ds, rle)
    decreases |oss|
  {
    hide ExecuteAll, LinesDrawable, Turn, Decodes, Drawable, Composite.Good, OrderRoundTrip.StreamBytes,
         OrderRoundTrip.StreamActions, OrderRoundTrip.StreamAfter, OrderRoundTrip.Stream, AllDrawable, AllDecode, Le16;
    if oss == [] {
      NothingExecuted(s.w, rle);
      NoUpdates(s, rle);
    } else {
      var rest, last := oss[..|oss| - 1], oss[|oss| - 1];
      var st := StateAfter(s.st, rest);
      LinesSplit(Asked(s.st, rest), OrderRoundTrip.StreamActions(st, last));
      StreamsDecode(s, rest, rle);
      var ds, done := Encoded(s.st, oss), Encoded(s.st, rest);
      assert ds[..|ds| - 1] == done;
      OneStream(Turns(s, done, rle), last, rle);
      ExecuteSplit(s.w, Asked(s.st, rest), OrderRoundTrip.StreamActions(st, last), rle);
      LongerDrawable(s, ds, rle);
      LongerDecodes(s, ds, rle);
    }
  }

  // ---- The way to the screen ------------------------------------------------------------------------------

  /** For every run of PDUs whose order updates are the fragments of messages that encode order streams: if every order
      update that is not read is an empty NEXT, the decoder ends in the encoder's state, the canvas is the one the
      orders draw, and a flush and a repaint put exactly that canvas on the screen. */
  lemma OrdersReachTheScreen(
    m: Mppc.State, p: MppcPeer.Peer, ps: seq<Pipeline.Pdu>, msgs: seq<seq<seq<byte>>>,
    s: Session, oss: seq<seq<OrderRoundTrip.Sent>>, rle: RleCodec)
    requires MppcPeer.InStep(m, p) && Pipeline.SendableRun(p, ps)
    requires forall i :: 0 <= i < |msgs| ==> msgs[i] != []
    requires Delivery.Orders(Pipeline.AllUpdates(ps)) == Pipeline.CutAll(msgs)
    requires Delivery.OnlyEmptyNextUnread(Delivery.Fates(ps))
    requires s.Level() && Encodable(s.st, oss) && LinesDrawable(Asked(s.st, oss))
    requires Delivery.Messages(msgs) == Encoded(s.st, oss)
    ensures var out := Pipeline.RunLoop(FastPath.Rx(m, [], Pipeline.IDLE), Pipeline.RunBytes(p, ps)).1;
            var r := Turns(s, out, rle);
            && r.Level() && r.st == StateAfter(s.st, oss) && r.w == ExecuteAll(s.w, Asked(s.st, oss), rle).0
            && forall resync :: r.v.pending.Some? ==>
                 Composite.Step(Composite.Step(r.v, Composite.Flush(resync)), Composite.Repaint).texture == r.w.pic
  {
    hide Pipeline.RunLoop, Pipeline.RunBytes, Turns, ExecuteAll, Asked, Encoded, Encodable, LinesDrawable,
         Composite.Good, AllDrawable, AllDecode, Delivery.Orders, Pipeline.CutAll, Delivery.Fates,
         Delivery.OnlyEmptyNextUnread, Delivery.Messages;
    Delivery.EndToEnd(m, p, ps, msgs);
    StreamsDecode(s, oss, rle);
    CompositeIsCanvas(s, Encoded(s.st, oss), rle);
  }
}
