/**
 The pixels that orders paint, told from their fields, the caches and the size of the canvas alone: exactly those
 become opaque, all others keep their colour, whatever the canvas shows.
 */
module Footprint {
  import opened Options
  import opened Bits
  import opened Rects
  import opened Pictures
  import opened Tables
  import opened ScreenCopy
  import opened Canvas
  import opened Lines
  import opened Glyphs
  import opened Orders
  import opened Bitmaps
  import opened Render
  import opened Processor

  predicate GlyphPaints(d: Draw, clip: Option<Rect>, x: int, y: int) {
    Touches(DrawRect(d), clip, x, y) && GlyphBit(d.g.cx, d.g.aj, x - d.x, y - d.y)
  }

  predicate BackgroundPaints(t: TextOrder, clip: Option<Rect>, x: int, y: int) {
    t.box != NOTHING && Touches(t.box, clip, x, y)
  }

  ghost predicate AnyGlyphPaints(ds: seq<Draw>, clip: Option<Rect>, x: int, y: int) {
    exists i :: 0 <= i < |ds| && GlyphPaints(ds[i], clip, x, y)
  }

  ghost predicate TextPaints(w: World, t: TextOrder, clip: Option<Rect>, x: int, y: int) {
    BackgroundPaints(t, clip, x, y) || AnyGlyphPaints(RunOf(w, t).draws, clip, x, y)
  }

  predicate FastGlyphPaints(w: World, t: TextOrder, clip: Option<Rect>, x: int, y: int) {
    || BackgroundPaints(t, clip, x, y)
    || (t.data != [] && FastGlyphOf(w, t).Some?
        && var g := FastGlyphOf(w, t).value; GlyphPaints(Draw(t.x + g.x, t.y + g.y, g), clip, x, y))
  }

  /** The order paints this canvas pixel. */
  ghost predicate OrderPaints(w: World, o: Primary, x: int, y: int) {
    var (v, clip) := (o.vals, o.clip);
    if o.orderType == DSTBLT then ByteAt(v, 4) in {0x00, 0x55, 0xFF} && Touches(RectAt(v, 0), clip, x, y)
    else if o.orderType == OPAQUE_RECT || o.orderType == PATBLT then Touches(RectAt(v, 0), clip, x, y)
    else if o.orderType == SCRBLT then
      Touches(RectAt(v, 0), clip, x, y) && w.pic.Inside(N(v, 5) + (x - N(v, 0)), N(v, 6) + (y - N(v, 1)))
    else if o.orderType == MEMBLT then
      var tile := w.bitmaps.Get(NatAt(v, 0) % 256, NatAt(v, 8));
      tile.Some? && Touches(RectAt(v, 1), clip, x, y)
      && tile.value.Inside(N(v, 6) + (x - N(v, 1)), N(v, 7) + (y - N(v, 2)))
    else if o.orderType == LINE_TO then
      OnLine(N(v, 1), N(v, 2), N(v, 3), N(v, 4), LineLength(N(v, 1), N(v, 2), N(v, 3), N(v, 4)), x, y)
      && (clip.Some? ==> clip.value.Has(x, y))
    else if o.orderType == GLYPH_INDEX then TextPaints(w, FullText(v), clip, x, y)
    else if o.orderType == FAST_INDEX then TextPaints(w, FastText(v), clip, x, y)
    else if o.orderType == FAST_GLYPH then FastGlyphPaints(w, FastText(v), clip, x, y)
    else false
  }

  /** The pixel is opaque if it was painted, else as before. */
  ghost predicate PaintedIff(p: Picture, q: Picture, x: int, y: int, painted: bool)
    requires p.Valid() && q.Valid()
  {
    if painted then q.Get(x, y).a == 255 else q.Get(x, y) == p.Get(x, y)
  }

  lemma PaintIff(p: Picture, f: Paint, x: int, y: int)
    requires p.Valid() && p.Inside(x, y)
    ensures PaintedIff(p, Painted(p, f), x, y, f(x, y).Some?)
  {
    hide Painted, Picture.Get;
    PaintedGet(p, f, x, y);
  }

  lemma FillIff(p: Picture, dst: Rect, clip: Option<Rect>, c: Rgba, x: int, y: int)
    requires p.Valid() && p.Inside(x, y)
    ensures PaintedIff(p, Painted(p, Solid(Clip(p.width, p.height, dst, clip), c)), x, y, Touches(dst, clip, x, y))
  {
    hide Painted, Picture.Get, Clip;
    ClipExact(p.width, p.height, dst, clip, x, y);
    PaintIff(p, Solid(Clip(p.width, p.height, dst, clip), c), x, y);
  }

  lemma RopIff(p: Picture, dst: Rect, clip: Option<Rect>, rop: byte, x: int, y: int)
    requires p.Valid() && p.Inside(x, y)
    ensures PaintedIff(p, Painted(p, RopPaint(p, Clip(p.width, p.height, dst, clip), rop)), x, y,
                       rop in {0x00, 0x55, 0xFF} && Touches(dst, clip, x, y))
  {
    hide Painted, Picture.Get, Clip;
    ClipExact(p.width, p.height, dst, clip, x, y);
    PaintIff(p, RopPaint(p, Clip(p.width, p.height, dst, clip), rop), x, y);
  }

  lemma CopyIff(p: Picture, dst: Rect, clip: Option<Rect>, dx: int, dy: int, x: int, y: int)
    requires p.Valid() && p.Inside(x, y)
    ensures var box := Clip(p.width, p.height, dst, clip);
            PaintedIff(p, if box.IsEmpty() then p
                       else Painted(p, CodedPaint(p, Window(p.width, p.height, box, dx, dy), dx, dy)),
                       x, y, Touches(dst, clip, x, y) && p.Inside(x + dx, y + dy))
  {
    hide Painted, Picture.Get, Clip, WalkOut, Window;
    var box := Clip(p.width, p.height, dst, clip);
    ClipExact(p.width, p.height, dst, clip, x, y);
    WindowExact(p.width, p.height, box, dx, dy, x, y);
    PaintIff(p, CodedPaint(p, Window(p.width, p.height, box, dx, dy), dx, dy), x, y);
  }

  lemma BitmapIff(p: Picture, dst: Rect, clip: Option<Rect>, src: Picture, srcX: int, srcY: int, x: int, y: int)
    requires p.Valid() && src.Valid() && p.Inside(x, y)
    ensures PaintedIff(p, Painted(p, BitmapPaint(Clip(p.width, p.height, dst, clip), dst, src, srcX, srcY)), x, y,
                       Touches(dst, clip, x, y) && src.Inside(srcX + (x - dst.x), srcY + (y - dst.y)))
  {
    hide Painted, Picture.Get, Clip;
    ClipExact(p.width, p.height, dst, clip, x, y);
    PaintIff(p, BitmapPaint(Clip(p.width, p.height, dst, clip), dst, src, srcX, srcY), x, y);
  }

  lemma GlyphIff(p: Picture, d: Draw, clip: Option<Rect>, c: Rgba, x: int, y: int)
    requires p.Valid() && p.Inside(x, y)
    ensures PaintedIff(p, Painted(p, DrawPaint(p, d, clip, c)), x, y, GlyphPaints(d, clip, x, y))
  {
    hide Painted, Picture.Get, Clip, GlyphBit;
    ClipExact(p.width, p.height, DrawRect(d), clip, x, y);
    PaintIff(p, DrawPaint(p, d, clip, c), x, y);
  }

  /** What is painted twice is opaque as well. */
  lemma PaintedTwice(p: Picture, q: Picture, r: Picture, x: int, y: int, a: bool, b: bool)
    requires p.Valid() && q.Valid() && r.Valid() && PaintedIff(p, q, x, y, a) && PaintedIff(q, r, x, y, b)
    ensures PaintedIff(p, r, x, y, a || b)
  {
    hide Picture.Get;
  }

  lemma {:induction false} GlyphsIff(p: Picture, ds: seq<Draw>, clip: Option<Rect>, c: Rgba, x: int, y: int)
    requires p.Valid() && p.Inside(x, y)
    ensures PaintedIff(p, PaintDraws(p, ds, clip, c), x, y, AnyGlyphPaints(ds, clip, x, y))
    decreases |ds|
  {
    hide Painted, Picture.Get, GlyphPaints, DrawPaint, PaintedIff;
    if ds == [] {
      NothingIff(p, x, y);
    } else {
      var rest, last := ds[..|ds| - 1], ds[|ds| - 1];
      GlyphsIff(p, rest, clip, c, x, y);
      var q := PaintDraws(p, rest, clip, c);
      assert DrawPaint(p, last, clip, c) == DrawPaint(q, last, clip, c) by { SameDrawPaint(p, q, last, clip, c); }
      GlyphIff(q, last, clip, c, x, y);
      PaintedTwice(p, q, PaintDraws(p, ds, clip, c), x, y, AnyGlyphPaints(rest, clip, x, y),
                   GlyphPaints(last, clip, x, y));
      AnyGlyphNext(ds, clip, x, y);
    }
  }

  lemma SameDrawPaint(p: Picture, q: Picture, d: Draw, clip: Option<Rect>, c: Rgba)
    requires SameSize(p, q)
    ensures DrawPaint(p, d, clip, c) == DrawPaint(q, d, clip, c)
  {
  }

  lemma NothingIff(p: Picture, x: int, y: int)
    requires p.Valid()
    ensures PaintedIff(p, p, x, y, false)
  {
  }

  lemma AnyGlyphNext(ds: seq<Draw>, clip: Option<Rect>, x: int, y: int)
    requires ds != []
    ensures AnyGlyphPaints(ds, clip, x, y)
            <==> AnyGlyphPaints(ds[..|ds| - 1], clip, x, y) || GlyphPaints(ds[|ds| - 1], clip, x, y)
  {
    hide GlyphPaints;
    var rest := ds[..|ds| - 1];
    if i :| 0 <= i < |ds| && GlyphPaints(ds[i], clip, x, y) {
      assert i < |rest| ==> rest[i] == ds[i];
    }
    if i :| 0 <= i < |rest| && GlyphPaints(rest[i], clip, x, y) {
      assert rest[i] == ds[i];
    }
  }

  lemma BackgroundIff(p: Picture, t: TextOrder, clip: Option<Rect>, x: int, y: int)
    requires p.Valid() && p.Inside(x, y)
    ensures var q := Background(p, t, clip).0;
            q.Valid() && SameSize(p, q) && PaintedIff(p, q, x, y, BackgroundPaints(t, clip, x, y))
  {
    hide Painted, Picture.Get, Clip;
    FillIff(p, t.box, clip, t.back, x, y);
  }

  lemma TextIff(w: World, t: TextOrder, clip: Option<Rect>, x: int, y: int)
    requires w.Valid() && w.pic.Inside(x, y)
    ensures var q := DrawText(w, t, clip).0.pic;
            q.Valid() && PaintedIff(w.pic, q, x, y, TextPaints(w, t, clip, x, y))
  {
    hide PaintedIff, Background, Process, PaintDraws, BackgroundPaints, AnyGlyphPaints;
    BackgroundIff(w.pic, t, clip, x, y);
    var q := Background(w.pic, t, clip).0;
    var ds := RunOf(w, t).draws;
    GlyphsIff(q, ds, clip, t.fore, x, y);
    PaintedTwice(w.pic, q, PaintDraws(q, ds, clip, t.fore), x, y,
                 BackgroundPaints(t, clip, x, y), AnyGlyphPaints(ds, clip, x, y));
  }

  lemma FastGlyphIff(w: World, t: TextOrder, clip: Option<Rect>, x: int, y: int)
    requires w.Valid() && w.pic.Inside(x, y)
    ensures var q := DrawFastGlyph(w, t, clip).0.pic;
            q.Valid() && PaintedIff(w.pic, q, x, y, FastGlyphPaints(w, t, clip, x, y))
  {
    hide PaintedIff, Background, Painted, BackgroundPaints, GlyphPaints, FastGlyphOf, DrawPaint;
    BackgroundIff(w.pic, t, clip, x, y);
    if t.data != [] && FastGlyphOf(w, t).Some? {
      var q, g := Background(w.pic, t, clip).0, FastGlyphOf(w, t).value;
      var d := Draw(t.x + g.x, t.y + g.y, g);
      GlyphIff(q, d, clip, t.fore, x, y);
      PaintedTwice(w.pic, q, Painted(q, DrawPaint(q, d, clip, t.fore)), x, y,
                   BackgroundPaints(t, clip, x, y), GlyphPaints(d, clip, x, y));
    }
  }

  /** Every order makes exactly the pixels of its footprint opaque and leaves all others alone. */
  lemma OrderPaintsExactly(w: World, o: Primary, x: int, y: int)
    requires w.Valid() && w.pic.Inside(x, y)
    ensures var q := DrawOrder(w, o).0.pic; q.Valid() && PaintedIff(w.pic, q, x, y, OrderPaints(w, o, x, y))
  {
    hide PaintedIff, Painted, Picture.Get, Touches, DrawText, DrawFastGlyph, TextPaints, FastGlyphPaints, CodedPaint,
         BitmapPaint, RopPaint, Window, Clip, LinePaint, OnLine, BitmapTables.Get, BitmapTables.Valid;
    var (p, v, clip) := (w.pic, o.vals, o.clip);
    NothingIff(p, x, y);
    if o.orderType == DSTBLT {
      RopIff(p, RectAt(v, 0), clip, ByteAt(v, 4), x, y);
    } else if o.orderType == OPAQUE_RECT {
      FillIff(p, RectAt(v, 0), clip, Rgba(ByteAt(v, 4), ByteAt(v, 5), ByteAt(v, 6), 255), x, y);
    } else if o.orderType == PATBLT {
      var rop := ByteAt(v, 4);
      var c := if rop == 0x00 then BLACK else if rop == 0xFF then WHITE else ColourAt(v, 6);
      FillIff(p, RectAt(v, 0), clip, c, x, y);
    } else if o.orderType == SCRBLT {
      CopyIff(p, RectAt(v, 0), clip, N(v, 5) - N(v, 0), N(v, 6) - N(v, 1), x, y);
    } else if o.orderType == MEMBLT {
      var tile := w.bitmaps.Get(NatAt(v, 0) % 256, NatAt(v, 8));
      GetValid(w.bitmaps, NatAt(v, 0) % 256, NatAt(v, 8));
      if tile.Some? {
        BitmapIff(p, RectAt(v, 1), clip, tile.value, N(v, 6), N(v, 7), x, y);
      }
    } else if o.orderType == LINE_TO {
      LineIff(w, o, x, y);
    } else if o.orderType == GLYPH_INDEX {
      TextIff(w, FullText(v), clip, x, y);
    } else if o.orderType == FAST_INDEX {
      TextIff(w, FastText(v), clip, x, y);
    } else if o.orderType == FAST_GLYPH {
      FastGlyphIff(w, FastText(v), clip, x, y);
    }
  }

  lemma LineIff(w: World, o: Primary, x: int, y: int)
    requires w.Valid() && w.pic.Inside(x, y) && o.orderType == LINE_TO
    ensures var q := DrawOrder(w, o).0.pic; q.Valid() && PaintedIff(w.pic, q, x, y, OrderPaints(w, o, x, y))
  {
    hide OnLine, Picture.Get, BitmapTables.Valid, Painted;
    LinePixels(w, o, x, y);
  }

  // ---- Streams -----------------------------------------------------------------------------------

  /** Worlds that differ in what the canvas shows only. */
  ghost predicate Alike(a: World, b: World) {
    SameSize(a.pic, b.pic) && a.bitmaps == b.bitmaps && a.glyphs == b.glyphs && a.fragments == b.fragments
  }

  lemma OrderAlike(a: World, b: World, o: Primary)
    requires a.Valid() && b.Valid() && Alike(a, b)
    ensures Alike(DrawOrder(a, o).0, DrawOrder(b, o).0)
    ensures forall x, y :: OrderPaints(a, o, x, y) == OrderPaints(b, o, x, y)
  {
    hide Painted, PaintDraws, Process, Lookup, Inserted, FastGlyphOf, CodedPaint, LinePaint, BitmapPaint, RopPaint,
         Clip, Window,
         DrawPaint, DirtyOf, BitmapTables.Valid, BitmapTables.Get, AnyGlyphPaints, GlyphPaints, OnLine, Touches;
    DrawKeepsValid(a, o);
    DrawKeepsValid(b, o);
    SameGlyph(a, b, FastText(o.vals));
  }

  lemma SameGlyph(a: World, b: World, t: TextOrder)
    requires Alike(a, b)
    ensures t.data != [] ==> FastGlyphOf(a, t) == FastGlyphOf(b, t)
    ensures RunOf(a, t) == RunOf(b, t)
  {
  }

  lemma ActionAlike(a: World, b: World, da: Option<Rect>, db: Option<Rect>, act: Action, rle: RleCodec)
    requires a.Valid() && b.Valid() && Alike(a, b)
    ensures Alike(Execute(a, da, act, rle).0, Execute(b, db, act, rle).0)
  {
    hide DrawOrder, ApplySecondary, World.Valid;
    if act.Render? {
      OrderAlike(a, b, act.order);
    }
  }

  lemma {:induction false} StreamAlike(a: World, b: World, actions: seq<Action>, rle: RleCodec)
    requires a.Valid() && b.Valid() && Alike(a, b)
    ensures Alike(ExecuteAll(a, actions, rle).0, ExecuteAll(b, actions, rle).0)
    decreases |actions|
  {
    hide Execute, World.Valid, Alike;
    if actions != [] {
      var rest, last := actions[..|actions| - 1], actions[|actions| - 1];
      StreamAlike(a, b, rest, rle);
      var p, q := ExecuteAll(a, rest, rle), ExecuteAll(b, rest, rle);
      ActionAlike(p.0, q.0, p.1, q.1, last, rle);
    }
  }

  ghost predicate ActionPaints(w: World, a: Action, x: int, y: int) {
    a.Render? && OrderPaints(w, a.order, x, y)
  }

  /** The i-th action paints it, with the caches as the actions before left them. */
  ghost predicate PaintsAt(w: World, actions: seq<Action>, i: nat, rle: RleCodec, x: int, y: int)
    requires w.Valid() && i < |actions|
  {
    ActionPaints(ExecuteAll(w, actions[..i], rle).0, actions[i], x, y)
  }

  /** Some action of the stream paints this canvas pixel. */
  ghost predicate StreamPaints(w: World, actions: seq<Action>, rle: RleCodec, x: int, y: int)
    requires w.Valid()
  {
    exists i :: 0 <= i < |actions| && PaintsAt(w, actions, i, rle, x, y)
  }

  lemma ActionPaintsExactly(w: World, dirty: Option<Rect>, a: Action, rle: RleCodec, x: int, y: int)
    requires w.Valid() && w.pic.Inside(x, y)
    ensures var q := Execute(w, dirty, a, rle).0.pic; PaintedIff(w.pic, q, x, y, ActionPaints(w, a, x, y))
  {
    hide DrawOrder, ApplySecondary, PaintedIff, OrderPaints;
    NothingIff(w.pic, x, y);
    if a.Render? {
      OrderPaintsExactly(w, a.order, x, y);
    }
  }

  lemma StreamPaintsNext(w: World, actions: seq<Action>, rle: RleCodec, x: int, y: int)
    requires w.Valid() && actions != []
    ensures var (rest, n) := (actions[..|actions| - 1], |actions| - 1);
            StreamPaints(w, actions, rle, x, y)
            <==> StreamPaints(w, rest, rle, x, y) || ActionPaints(ExecuteAll(w, rest, rle).0, actions[n], x, y)
  {
    hide PaintsAt, ExecuteAll, ActionPaints, World.Valid;
    var rest, n := actions[..|actions| - 1], |actions| - 1;
    assert PaintsAt(w, actions, n, rle, x, y) == ActionPaints(ExecuteAll(w, rest, rle).0, actions[n], x, y) by {
      PaintsAtIs(w, actions, n, rle, x, y);
    }
    forall i | 0 <= i < n
      ensures PaintsAt(w, rest, i, rle, x, y) == PaintsAt(w, actions, i, rle, x, y)
    {
      PrefixPaints(w, actions, i, rle, x, y);
    }
  }

  lemma PaintsAtIs(w: World, actions: seq<Action>, i: nat, rle: RleCodec, x: int, y: int)
    requires w.Valid() && i < |actions|
    ensures PaintsAt(w, actions, i, rle, x, y) == ActionPaints(ExecuteAll(w, actions[..i], rle).0, actions[i], x, y)
  {
  }

  lemma PrefixPaints(w: World, actions: seq<Action>, i: nat, rle: RleCodec, x: int, y: int)
    requires w.Valid() && i < |actions| - 1
    ensures PaintsAt(w, actions[..|actions| - 1], i, rle, x, y) == PaintsAt(w, actions, i, rle, x, y)
  {
    hide ExecuteAll, ActionPaints;
    assert actions[..|actions| - 1][..i] == actions[..i];
  }

  /** A stream makes exactly the pixels that some action of it paints opaque and leaves all others alone. */
  lemma {:induction false} StreamPaintsExactly(w: World, actions: seq<Action>, rle: RleCodec, x: int, y: int)
    requires w.Valid() && w.pic.Inside(x, y)
    ensures var q := ExecuteAll(w, actions, rle).0.pic; PaintedIff(w.pic, q, x, y, StreamPaints(w, actions, rle, x, y))
    decreases |actions|
  {
    hide Execute, PaintedIff, ActionPaints, StreamPaints;
    if actions == [] {
      NothingIff(w.pic, x, y);
      EmptyPaintsNothing(w, rle, x, y);
    } else {
      var rest, last := actions[..|actions| - 1], actions[|actions| - 1];
      StreamPaintsExactly(w, rest, rle, x, y);
      var p := ExecuteAll(w, rest, rle);
      ActionPaintsExactly(p.0, p.1, last, rle, x, y);
      StreamPaintsNext(w, actions, rle, x, y);
      PaintedTwice(w.pic, p.0.pic, ExecuteAll(w, actions, rle).0.pic, x, y,
                   StreamPaints(w, rest, rle, x, y), ActionPaints(p.0, last, x, y));
    }
  }

  lemma EmptyPaintsNothing(w: World, rle: RleCodec, x: int, y: int)
    requires w.Valid()
    ensures !StreamPaints(w, [], rle, x, y)
  {
  }

  /** Which pixels a stream paints does not depend on what the canvas shows. */
  lemma SamePixels(a: World, b: World, actions: seq<Action>, rle: RleCodec, x: int, y: int)
    requires a.Valid() && b.Valid() && Alike(a, b)
    ensures StreamPaints(a, actions, rle, x, y) == StreamPaints(b, actions, rle, x, y)
  {
    hide ExecuteAll, OrderPaints, Alike;
    forall i | 0 <= i < |actions|
      ensures PaintsAt(a, actions, i, rle, x, y) == PaintsAt(b, actions, i, rle, x, y)
    {
      StreamAlike(a, b, actions[..i], rle);
      if actions[i].Render? {
        OrderAlike(ExecuteAll(a, actions[..i], rle).0, ExecuteAll(b, actions[..i], rle).0, actions[i].order);
      }
    }
  }
}
