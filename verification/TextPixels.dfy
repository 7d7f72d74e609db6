/**
 What the three text orders leave on the canvas, pixel by pixel, told from the fields of the order and the glyph
 positions of its run.
 */
module TextPixels {
  import opened Options
  import opened Bits
  import opened Rects
  import opened Pictures
  import opened Tables
  import opened Canvas
  import opened Glyphs
  import opened TextRuns
  import opened Fields
  import opened Orders
  import opened Bitmaps
  import opened Render
  import opened Footprint
  import OrderLayouts

  // ---- Ink ---------------------------------------------------------------------------------

  /** Weight of column `k` of eight: the leftmost pixel is the most significant bit. */
  function Weight(k: nat): nat
    requires k < 8
  {
    if k == 0 then 128 else if k == 1 then 64 else if k == 2 then 32 else if k == 3 then 16
    else if k == 4 then 8 else if k == 5 then 4 else if k == 6 then 2 else 1
  }

  /** A glyph with its upper left corner at (left, top) has a set bit on pixel (x, y). */
  predicate Ink(g: Glyph, left: int, top: int, x: int, y: int) {
    left <= x < left + g.cx && top <= y < top + g.cy && InkBit(g.cx, g.aj, x - left, y - top)
  }

  /** Rows are whole bytes; bytes that are missing have no ink. */
  predicate InkBit(cx: nat, aj: seq<byte>, column: nat, row: nat) {
    var i := row * ((cx + 7) / 8) + column / 8;
    i < |aj| && aj[i] / Weight(column % 8) % 2 == 1
  }

  /** Some glyph of the run has: each stands at the pen's start plus the advances before it plus its bearing. */
  ghost predicate Inked(steps: seq<Step>, px: int, py: int, x: int, y: int) {
    exists j :: 0 <= j < |steps| && StepInks(steps, j, px, py, x, y)
  }

  predicate StepInks(steps: seq<Step>, j: nat, px: int, py: int, x: int, y: int)
    requires j < |steps|
  {
    && steps[j].glyph.Some?
    && var g := steps[j].glyph.value; Ink(g, px + Sum(steps[..j]) + g.x, py + g.y, x, y)
  }

  predicate InClip(clip: Option<Rect>, x: int, y: int) {
    clip.Some? ==> clip.value.x <= x < clip.value.x + clip.value.w && clip.value.y <= y < clip.value.y + clip.value.h
  }

  /** The box has extent and holds the pixel, its edges included; 32 bits cut it at 2^31 - 1 pixels. */
  predicate InBox(l: int, t: int, r: int, b: int, x: int, y: int) {
    l < r && t < b && l <= x <= r && t <= y <= b && x - l < 0x7FFF_FFFF && y - t < 0x7FFF_FFFF
  }

  /** Ink over background over what was there. */
  function TextColour(p: Picture, ink: bool, inBox: bool, fore: Rgba, back: Rgba, x: int, y: int): Rgba
    requires p.Valid()
  {
    if ink then Opaque(fore) else if inBox then Opaque(back) else p.Get(x, y)
  }

  lemma WeightBit(b: byte, k: nat)
    requires k < 8
    ensures ByteBit(b, k) == 1 <==> b / Weight(k) % 2 == 1
  {
  }

  /** A glyph's rows are read from the most significant bit on, eight pixels to the byte. */
  lemma GlyphBitIsInk(cx: nat, aj: seq<byte>, column: nat, row: nat)
    ensures GlyphBit(cx, aj, column, row) <==> InkBit(cx, aj, column, row)
  {
    hide ByteBit, Weight;
    var i := row * RowBytes(cx) + column / 8;
    if i < |aj| {
      WeightBit(aj[i], column % 8);
    }
  }

  lemma GlyphInk(d: Draw, clip: Option<Rect>, x: int, y: int)
    ensures GlyphPaints(d, clip, x, y) <==> InClip(clip, x, y) && Ink(d.g, d.x, d.y, x, y)
  {
    hide GlyphBit, InkBit;
    if d.x <= x && d.y <= y {
      GlyphBitIsInk(d.g.cx, d.g.aj, x - d.x, y - d.y);
    }
  }

  // ---- Painting -------------------------------------------------------------------------------

  lemma {:induction false} GlyphsColour(p: Picture, ds: seq<Draw>, clip: Option<Rect>, c: Rgba, x: int, y: int)
    requires p.Valid() && p.Inside(x, y)
    ensures PaintDraws(p, ds, clip, c).Get(x, y)
            == if AnyGlyphPaints(ds, clip, x, y) then Opaque(c) else p.Get(x, y)
    decreases |ds|
  {
    hide Painted, Picture.Get, GlyphPaints, DrawPaint, AnyGlyphPaints, Opaque;
    if ds == [] {
      NoGlyphPaints(clip, x, y);
    } else {
      var rest, last := ds[..|ds| - 1], ds[|ds| - 1];
      GlyphsColour(p, rest, clip, c, x, y);
      var q := PaintDraws(p, rest, clip, c);
      SameDrawPaint(p, q, last, clip, c);
      GlyphColour(q, last, clip, c, x, y);
      AnyGlyphNext(ds, clip, x, y);
    }
  }

  lemma NoGlyphPaints(clip: Option<Rect>, x: int, y: int)
    ensures !AnyGlyphPaints([], clip, x, y)
  {
  }

  lemma GlyphColour(p: Picture, d: Draw, clip: Option<Rect>, c: Rgba, x: int, y: int)
    requires p.Valid() && p.Inside(x, y)
    ensures Painted(p, DrawPaint(p, d, clip, c)).Get(x, y)
            == if GlyphPaints(d, clip, x, y) then Opaque(c) else p.Get(x, y)
  {
    hide Painted, Picture.Get, Clip, GlyphBit;
    ClipExact(p.width, p.height, DrawRect(d), clip, x, y);
    PaintedGet(p, DrawPaint(p, d, clip, c), x, y);
  }

  /** The glyphs painted are those of the steps. */
  lemma StepsInk(ds: seq<Draw>, steps: seq<Step>, px: int, py: int, clip: Option<Rect>, x: int, y: int)
    requires Positions(ds, steps, px, py)
    ensures AnyGlyphPaints(ds, clip, x, y) <==> InClip(clip, x, y) && Inked(steps, px, py, x, y)
  {
    hide Ink, Sum, Count, GlyphPaints, InClip;
    if i :| 0 <= i < |ds| && GlyphPaints(ds[i], clip, x, y) {
      GlyphInk(ds[i], clip, x, y);
      var j := NthGlyph(steps, i);
      assert StepInks(steps, j, px, py, x, y);
    }
    if InClip(clip, x, y) && Inked(steps, px, py, x, y) {
      var j :| 0 <= j < |steps| && StepInks(steps, j, px, py, x, y);
      GlyphInk(ds[Count(steps[..j])], clip, x, y);
    }
  }

  /** The step that paints glyph number `i`. */
  lemma {:induction false} NthGlyph(steps: seq<Step>, i: nat) returns (j: nat)
    requires i < Count(steps)
    ensures j < |steps| && steps[j].glyph.Some? && Count(steps[..j]) == i
    decreases |steps|
  {
    var n := |steps| - 1;
    assert steps == steps[..n] + [steps[n]];
    SumJoin(steps[..n], [steps[n]]);
    assert Count([steps[n]]) <= 1 by { OnePosition(steps[n], 0, 0); }
    if i < Count(steps[..n]) {
      j := NthGlyph(steps[..n], i);
      assert steps[..n][..j] == steps[..j];
    } else {
      j := n;
    }
  }

  lemma BoxColour(p: Picture, l: int, t: int, r: int, b: int, text: TextOrder, clip: Option<Rect>, x: int, y: int)
    requires p.Valid() && p.Inside(x, y) && text.box == BackBox(l, t, r, b)
    ensures var q := Background(p, text, clip).0;
            && q.Valid() && SameSize(p, q)
            && q.Get(x, y) == if InClip(clip, x, y) && InBox(l, t, r, b, x, y) then Opaque(text.back) else p.Get(x, y)
  {
    hide Painted, Picture.Get, Clip, Opaque;
    ClipExact(p.width, p.height, text.box, clip, x, y);
    PaintedGet(p, Solid(Clip(p.width, p.height, text.box, clip), text.back), x, y);
  }

  // ---- GLYPH_INDEX and FAST_INDEX -----------------------------------------------------------------

  /** The steps of a run and the fragments it leaves. */
  function RunSteps(w: World, cacheId: byte, charInc: byte, py: int, data: seq<byte>): (seq<Step>, Book) {
    Steps(Font(w.glyphs, cacheId, charInc, py), BookOf(w.fragments), Ops(data, 0, charInc != 0), 0)
  }

  lemma RunPixels(w: World, text: TextOrder, l: int, t: int, r: int, b: int, clip: Option<Rect>, x: int, y: int)
    requires w.Valid() && w.pic.Inside(x, y) && text.box == BackBox(l, t, r, b)
    ensures var run := RunSteps(w, text.cacheId, text.charInc, text.y, text.data);
            var q := DrawText(w, text, clip).0;
            && q.pic.Valid() && BookOf(q.fragments) == run.1 && q.glyphs == w.glyphs && q.bitmaps == w.bitmaps
            && q.pic.Get(x, y) == TextColour(w.pic, InClip(clip, x, y) && Inked(run.0, text.x, text.y, x, y),
                                             InClip(clip, x, y) && InBox(l, t, r, b, x, y), text.fore, text.back, x, y)
  {
    hide Background, Process, PaintDraws, AnyGlyphPaints, Steps, Ops, Positions, Inked, InClip, InBox, Opaque, BookOf,
         BackBox, Picture.Get;
    BoxColour(w.pic, l, t, r, b, text, clip, x, y);
    var font := Font(w.glyphs, text.cacheId, text.charInc, text.y);
    var pen := Pen(text.x, w.fragments, []);
    BytesLaw(font, text.data, 0, pen, 0);
    var ds := RunOf(w, text).draws;
    assert ds[|pen.draws|..] == ds;
    var run := RunSteps(w, text.cacheId, text.charInc, text.y, text.data);
    StepsInk(ds, run.0, text.x, text.y, clip, x, y);
    GlyphsColour(Background(w.pic, text, clip).0, ds, clip, text.fore, x, y);
  }

  /** GLYPH_INDEX, by the numbers of its fields. */
  lemma GlyphIndexPixels(w: World, o: Primary, cacheId: byte, charInc: byte, back: Rgba, fore: Rgba, l: int, t: int,
                         r: int, b: int, px: int, py: int, data: seq<byte>, x: int, y: int)
    requires w.Valid() && w.pic.Inside(x, y) && o.orderType == 0x1B && |o.vals| == 22
    requires o.vals[0] == Num(cacheId) && o.vals[2] == Num(charInc)
    requires o.vals[4] == Colour(back) && o.vals[5] == Colour(fore)
    requires o.vals[6..10] == [Num(l), Num(t), Num(r), Num(b)]
    requires o.vals[19..] == [Num(px), Num(py), Text(data)]
    ensures var run := RunSteps(w, cacheId, charInc, py, data);
            var q := DrawOrder(w, o).0;
            && q.pic.Valid() && BookOf(q.fragments) == run.1 && q.glyphs == w.glyphs && q.bitmaps == w.bitmaps
            && q.pic.Get(x, y) == TextColour(w.pic, InClip(o.clip, x, y) && Inked(run.0, px, py, x, y),
                                             InClip(o.clip, x, y) && InBox(l, t, r, b, x, y), fore, back, x, y)
  {
    hide DrawText, RunSteps, Inked, InClip, InBox, TextColour, BookOf, BackBox, Picture.Get;
    var v := o.vals;
    assert v[6..10][0] == v[6] && v[6..10][1] == v[7] && v[6..10][2] == v[8] && v[6..10][3] == v[9];
    assert v[19..][0] == v[19] && v[19..][1] == v[20] && v[19..][2] == v[21];
    assert FullText(v) == TextOrder(cacheId, charInc, back, fore, BackBox(l, t, r, b), px, py, data);
    RunPixels(w, FullText(v), l, t, r, b, o.clip, x, y);
  }

  /** FAST_INDEX. */
  lemma FastIndexPixels(w: World, o: Primary, cacheId: byte, charInc: byte, back: Rgba, fore: Rgba, l: int, t: int,
                        r: int, b: int, px: int, py: int, data: seq<byte>, x: int, y: int)
    requires w.Valid() && w.pic.Inside(x, y) && o.orderType == 0x13 && |o.vals| == 16
    requires o.vals[0] == Num(cacheId) && o.vals[1] == Num(charInc)
    requires o.vals[3] == Colour(back) && o.vals[4] == Colour(fore)
    requires o.vals[5..9] == [Num(l), Num(t), Num(r), Num(b)]
    requires o.vals[13..] == [Num(px), Num(py), Text(data)]
    ensures var run := RunSteps(w, cacheId, charInc, py, data);
            var q := DrawOrder(w, o).0;
            && q.pic.Valid() && BookOf(q.fragments) == run.1 && q.glyphs == w.glyphs && q.bitmaps == w.bitmaps
            && q.pic.Get(x, y) == TextColour(w.pic, InClip(o.clip, x, y) && Inked(run.0, px, py, x, y),
                                             InClip(o.clip, x, y) && InBox(l, t, r, b, x, y), fore, back, x, y)
  {
    hide DrawText, RunSteps, Inked, InClip, InBox, TextColour, BookOf, BackBox, Picture.Get;
    FastFields(o.vals, cacheId, charInc, back, fore, l, t, r, b, px, py, data);
    RunPixels(w, FastText(o.vals), l, t, r, b, o.clip, x, y);
  }

  lemma FastFields(v: seq<Value>, cacheId: byte, charInc: byte, back: Rgba, fore: Rgba, l: int, t: int, r: int, b: int,
                   px: int, py: int, data: seq<byte>)
    requires |v| == 16 && v[0] == Num(cacheId) && v[1] == Num(charInc) && v[3] == Colour(back) && v[4] == Colour(fore)
    requires v[5..9] == [Num(l), Num(t), Num(r), Num(b)] && v[13..] == [Num(px), Num(py), Text(data)]
    ensures FastText(v) == TextOrder(cacheId, charInc, back, fore, BackBox(l, t, r, b), px, py, data)
  {
    hide BackBox;
    assert v[5..9][0] == v[5] && v[5..9][1] == v[6] && v[5..9][2] == v[7] && v[5..9][3] == v[8];
    assert v[13..][0] == v[13] && v[13..][1] == v[14] && v[13..][2] == v[15];
  }

  // ---- FAST_GLYPH -------------------------------------------------------------------------------

  /** The glyph a FAST_GLYPH order draws: with nine bytes of data or more its own, read from eight header bytes behind
      the cache index, bearing, extent, bits; with less the cached one. */
  function SentGlyph(w: World, cacheId: byte, data: seq<byte>): Option<Glyph> {
    if data == [] then None
    else if |data| < 9 then Lookup(w.glyphs, cacheId, data[0])
    else Some(Glyph(OrderLayouts.I16(data, 1), OrderLayouts.I16(data, 3), OrderLayouts.U16(data, 5),
                    OrderLayouts.U16(data, 7), data[9..]))
  }

  /** FAST_GLYPH: an inline glyph is in its cell of the cache afterwards, whose other cells stay. */
  lemma FastGlyphPixels(w: World, o: Primary, cacheId: byte, charInc: byte, back: Rgba, fore: Rgba, l: int, t: int,
                        r: int, b: int, px: int, py: int, data: seq<byte>, x: int, y: int)
    requires w.Valid() && w.pic.Inside(x, y) && o.orderType == 0x18 && |o.vals| == 16
    requires o.vals[0] == Num(cacheId) && o.vals[1] == Num(charInc)
    requires o.vals[3] == Colour(back) && o.vals[4] == Colour(fore)
    requires o.vals[5..9] == [Num(l), Num(t), Num(r), Num(b)]
    requires o.vals[13..] == [Num(px), Num(py), Text(data)]
    ensures var g := SentGlyph(w, cacheId, data);
            var q := DrawOrder(w, o).0;
            && q.pic.Valid() && q.fragments == w.fragments && q.bitmaps == w.bitmaps
            && (forall id: nat, i: nat :: Lookup(q.glyphs, id, i) ==
                  if |data| >= 9 && (id, i) == (cacheId, data[0]) then g else Lookup(w.glyphs, id, i))
            && q.pic.Get(x, y) ==
               TextColour(w.pic, g.Some? && InClip(o.clip, x, y) && Ink(g.value, px + g.value.x, py + g.value.y, x, y),
                          InClip(o.clip, x, y) && InBox(l, t, r, b, x, y), fore, back, x, y)
  {
    hide Background, InClip, InBox, BackBox, Picture.Get, Lookup, Inserted, DrawPaint, Painted, Ink, Opaque, Grow, Clip,
         BitmapTables.Valid;
    FastFields(o.vals, cacheId, charInc, back, fore, l, t, r, b, px, py, data);
    var text := FastText(o.vals);
    BoxColour(w.pic, l, t, r, b, text, o.clip, x, y);
    var g := SentGlyph(w, cacheId, data);
    if g.Some? {
      var bg := Background(w.pic, text, o.clip).0;
      var d := Draw(px + g.value.x, py + g.value.y, g.value);
      GlyphColour(bg, d, o.clip, fore, x, y);
      GlyphInk(d, o.clip, x, y);
      forall id: nat, i: nat
        ensures Lookup(Inserted(w.glyphs, cacheId, data[0], g.value), id, i) ==
                if (id, i) == (cacheId as nat, data[0] as nat) then g else Lookup(w.glyphs, id, i)
      {
        LookupInserted(w.glyphs, cacheId, data[0], g.value, id, i);
      }
    }
  }
}
