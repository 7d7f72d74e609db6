/** What each drawing order paints, and the rectangle it reports as dirty. */
module Render {
  import opened Options
  import opened Bits
  import opened Rects
  import opened Pictures
  import opened Tables
  import opened ScreenCopy
  import opened Canvas
  import opened Lines
  import opened Glyphs
  import opened Fields
  import opened Orders
  import opened Bitmaps

  /** Everything the renderer works on. */
  datatype World = World(pic: Picture, bitmaps: BitmapTables, glyphs: GlyphTable, fragments: Fragments) {
    ghost predicate Valid() { pic.Valid() && bitmaps.Valid() }
  }

  const NOTHING := Rect(0, 0, 0, 0)

  // Typed views of a field list.

  function N(v: seq<Value>, i: nat): int { if i < |v| then NumOf(v[i]) else 0 }

  function ByteAt(v: seq<Value>, i: nat): byte { N(v, i) % 256 }

  function NatAt(v: seq<Value>, i: nat): nat { N(v, i) % 0x1_0000 }

  function ColourAt(v: seq<Value>, i: nat): Rgba {
    if i < |v| && v[i].Colour? then v[i].c else Rgba(0, 0, 0, 0)
  }

  function TextAt(v: seq<Value>, i: nat): seq<byte> { if i < |v| && v[i].Text? then v[i].b else [] }

  function RectAt(v: seq<Value>, i: nat): Rect { Rect(N(v, i), N(v, i + 1), N(v, i + 2), N(v, i + 3)) }

  // ---- Text orders -----------------------------------------------------------------------

  /** What the three text orders have in common. */
  datatype TextOrder = TextOrder(cacheId: byte, charInc: byte, back: Rgba, fore: Rgba, box: Rect, x: int, y: int,
                                 data: seq<byte>)

  /** The background box in inclusive coordinates; a box without extent paints nothing. */
  function BackBox(l: int, t: int, r: int, b: int): Rect {
    if r > l && b > t then FromInclusive(l, t, r, b) else NOTHING
  }

  function FastText(v: seq<Value>): TextOrder {
    TextOrder(ByteAt(v, 0), ByteAt(v, 1), ColourAt(v, 3), ColourAt(v, 4), BackBox(N(v, 5), N(v, 6), N(v, 7), N(v, 8)),
              N(v, 13), N(v, 14), TextAt(v, 15))
  }

  function FullText(v: seq<Value>): TextOrder {
    TextOrder(ByteAt(v, 0), ByteAt(v, 2), ColourAt(v, 4), ColourAt(v, 5), BackBox(N(v, 6), N(v, 7), N(v, 8), N(v, 9)),
              N(v, 19), N(v, 20), TextAt(v, 21))
  }

  /** The picture after a fill, and the rectangle it reports. */
  function Fill(p: Picture, r: Rect, clip: Option<Rect>, c: Rgba): (Picture, Rect)
    requires p.Valid()
  {
    var box := Clip(p.width, p.height, r, clip);
    (Painted(p, Solid(box, c)), box)
  }

  function Joined(a: Rect, b: Rect): Rect {
    if a.IsEmpty() then b else if b.IsEmpty() then a else a.Union(b)
  }

  function Background(p: Picture, t: TextOrder, clip: Option<Rect>): (Picture, Rect)
    requires p.Valid()
  {
    if t.box == NOTHING then (p, NOTHING) else Fill(p, t.box, clip, t.back)
  }

  function RunOf(w: World, t: TextOrder): Pen {
    Process(Font(w.glyphs, t.cacheId, t.charInc, t.y), t.data, 0, Pen(t.x, w.fragments, []), 0)
  }

  /** GlyphIndex and FastIndex: background, then the run of cached glyphs. */
  function DrawText(w: World, t: TextOrder, clip: Option<Rect>): (World, Rect)
    requires w.Valid()
  {
    var bg := Background(w.pic, t, clip);
    var pen := RunOf(w, t);
    (w.(pic := PaintDraws(bg.0, pen.draws, clip, t.fore), fragments := pen.fragments),
     Joined(bg.1, DirtyOf(bg.0, pen.draws, clip)))
  }

  function I16At(b: seq<byte>, i: nat): int
    requires i + 1 < |b|
  {
    Signed(b[i] as int + 256 * (b[i + 1] as int), 0x8000)
  }

  /** The glyph a FastGlyph order draws: inline if nine bytes or more follow, else from the cache. */
  function FastGlyphOf(w: World, t: TextOrder): Option<Glyph>
    requires t.data != []
  {
    if |t.data| >= 9 then
      Some(Glyph(I16At(t.data, 1), I16At(t.data, 3), U16At(t.data, 5), U16At(t.data, 7), t.data[9..]))
    else Lookup(w.glyphs, t.cacheId, t.data[0])
  }

  function DrawFastGlyph(w: World, t: TextOrder, clip: Option<Rect>): (World, Rect)
    requires w.Valid()
  {
    var bg := Background(w.pic, t, clip);
    if t.data == [] || FastGlyphOf(w, t).None? then (w.(pic := bg.0), bg.1)
    else
      var g := FastGlyphOf(w, t).value;
      var d := Draw(t.x + g.x, t.y + g.y, g);
      var table := if |t.data| >= 9 then Inserted(w.glyphs, t.cacheId, t.data[0], g) else w.glyphs;
      (w.(pic := Painted(bg.0, DrawPaint(bg.0, d, clip, t.fore)), glyphs := table),
       Grow(bg.1, Clip(w.pic.width, w.pic.height, DrawRect(d), clip)))
  }

  // ---- All orders ------------------------------------------------------------------------

  /** Effect and reported rectangle of one primary order. */
  ghost function DrawOrder(w: World, o: Primary): (r: (World, Rect))
    requires w.Valid()
  {
    var (p, v, clip) := (w.pic, o.vals, o.clip);
    if o.orderType == DSTBLT then
      var box := Clip(p.width, p.height, RectAt(v, 0), clip);
      (w.(pic := Painted(p, RopPaint(p, box, ByteAt(v, 4)))), box)
    else if o.orderType == OPAQUE_RECT then
      var f := Fill(p, RectAt(v, 0), clip, Rgba(ByteAt(v, 4), ByteAt(v, 5), ByteAt(v, 6), 255));
      (w.(pic := f.0), f.1)
    else if o.orderType == PATBLT then
      var rop := ByteAt(v, 4);
      var c := if rop == 0x00 then BLACK else if rop == 0xFF then WHITE else ColourAt(v, 6);
      var f := Fill(p, RectAt(v, 0), clip, c);
      (w.(pic := f.0), f.1)
    else if o.orderType == SCRBLT then
      var box := Clip(p.width, p.height, RectAt(v, 0), clip);
      var (dx, dy) := (N(v, 5) - N(v, 0), N(v, 6) - N(v, 1));
      var window := Window(p.width, p.height, box, dx, dy);
      (if box.IsEmpty() then w else w.(pic := Painted(p, CodedPaint(p, window, dx, dy))), box)
    else if o.orderType == MEMBLT then
      var tile := w.bitmaps.Get(NatAt(v, 0) % 256, NatAt(v, 8));
      if tile.None? then (w, NOTHING)
      else
        var box := Clip(p.width, p.height, RectAt(v, 1), clip);
        GetValid(w.bitmaps, NatAt(v, 0) % 256, NatAt(v, 8));
        (w.(pic := Painted(p, BitmapPaint(box, RectAt(v, 1), tile.value, N(v, 6), N(v, 7)))), box)
    else if o.orderType == LINE_TO then
      var (x0, y0, x1, y1) := (N(v, 1), N(v, 2), N(v, 3), N(v, 4));
      (w.(pic := Painted(p, LinePaint(x0, y0, x1, y1, LineLength(x0, y0, x1, y1), clip, ColourAt(v, 9)))),
       LineBox(x0, y0, x1, y1))
    else if o.orderType == GLYPH_INDEX then DrawText(w, FullText(v), clip)
    else if o.orderType == FAST_INDEX then DrawText(w, FastText(v), clip)
    else if o.orderType == FAST_GLYPH then DrawFastGlyph(w, FastText(v), clip)
    else (w, NOTHING)
  }

  lemma DrawKeepsValid(w: World, o: Primary)
    requires w.Valid()
    ensures DrawOrder(w, o).0.Valid() && SameSize(w.pic, DrawOrder(w, o).0.pic)
  {
    hide Painted, PaintDraws, Process, BitmapTables.Valid, Clip;
  }

  // ---- Dirty rectangles are sound ------------------------------------------------------------

  /** `d` accounts for everything that differs between the pictures, and does not saturate. */
  ghost predicate Covers(p: Picture, q: Picture, d: Rect)
    requires p.Valid() && q.Valid()
  {
    ChangedWithin(p, q, d) && (d.IsEmpty() || d.Small())
  }

  /** Line coordinates within `b` of the origin. */
  predicate LineBounded(v: seq<Value>, b: int) {
    EndsWithin(b, N(v, 1), N(v, 2), N(v, 3), N(v, 4))
  }

  /** A line that is drawn in 32 bits, with a rectangle that unions can take in without saturating. */
  ghost predicate LineDrawable(v: seq<Value>) {
    LineBounded(v, COORD_BOUND) && LineFits(N(v, 1), N(v, 2), N(v, 3), N(v, 4))
  }

  /** All lines within a third of 2^30 of the origin are. */
  lemma BoundedIsDrawable(v: seq<Value>)
    requires LineBounded(v, LINE_BOUND)
    ensures LineDrawable(v)
  {
    hide LineFits;
    LinesFitIff(LINE_BOUND);
  }

  lemma ClipCovers(p: Picture, f: Paint, dst: Rect, clip: Option<Rect>)
    requires p.Valid() && Within(f, Clip(p.width, p.height, dst, clip))
    ensures Covers(p, Painted(p, f), Clip(p.width, p.height, dst, clip))
  {
    hide Painted, Picture.Get;
    ClipInside(p.width, p.height, dst, clip);
    PaintedWithin(p, f, Clip(p.width, p.height, dst, clip));
  }

  lemma CoversJoined(p: Picture, q: Picture, r: Picture, a: Rect, b: Rect)
    requires p.Valid() && q.Valid() && r.Valid() && Covers(p, q, a) && Covers(q, r, b)
    ensures Covers(p, r, Joined(a, b)) && Covers(p, r, Grow(a, b)) && Covers(p, r, a.Union(b))
  {
    hide Picture.Get, Rect.Union;
    UnionCovers(a, b);
    assert b.IsEmpty() || a.IsEmpty() ==> a.Union(b) == Joined(a, b) || a.Union(b) == b by { UnionOfEmpty(a, b); }
  }

  lemma UnionOfEmpty(a: Rect, b: Rect)
    ensures a.IsEmpty() ==> a.Union(b) == b
    ensures !a.IsEmpty() && b.IsEmpty() ==> a.Union(b) == a
  {
  }

  lemma NothingCovers(p: Picture)
    requires p.Valid()
    ensures Covers(p, p, NOTHING)
  {
  }

  lemma BackgroundCovers(p: Picture, t: TextOrder, clip: Option<Rect>)
    requires p.Valid()
    ensures Background(p, t, clip).0.Valid() && Covers(p, Background(p, t, clip).0, Background(p, t, clip).1)
  {
    hide Painted, Covers, Clip;
    NothingCovers(p);
    if t.box != NOTHING {
      ClipCovers(p, Solid(Clip(p.width, p.height, t.box, clip), t.back), t.box, clip);
    }
  }

  lemma TextCovers(w: World, t: TextOrder, clip: Option<Rect>)
    requires w.Valid()
    ensures var d := DrawText(w, t, clip); d.0.pic.Valid() && Covers(w.pic, d.0.pic, d.1)
  {
    hide Background, PaintDraws, DirtyOf, Process;
    BackgroundCovers(w.pic, t, clip);
    var bg, pen := Background(w.pic, t, clip), RunOf(w, t);
    RunWithinDirty(bg.0, pen.draws, clip, t.fore);
    CoversJoined(w.pic, bg.0, PaintDraws(bg.0, pen.draws, clip, t.fore), bg.1, DirtyOf(bg.0, pen.draws, clip));
  }

  lemma FastGlyphCovers(w: World, t: TextOrder, clip: Option<Rect>)
    requires w.Valid()
    ensures var d := DrawFastGlyph(w, t, clip); d.0.pic.Valid() && Covers(w.pic, d.0.pic, d.1)
  {
    hide Background, Painted, Clip, FastGlyphOf, Covers;
    BackgroundCovers(w.pic, t, clip);
    var bg := Background(w.pic, t, clip);
    if t.data != [] && FastGlyphOf(w, t).Some? {
      var g := FastGlyphOf(w, t).value;
      var d := Draw(t.x + g.x, t.y + g.y, g);
      assert SameSize(w.pic, bg.0) by { SizeKept(w.pic, bg.0, bg.1); }
      ClipCovers(bg.0, DrawPaint(bg.0, d, clip, t.fore), DrawRect(d), clip);
      CoversJoined(w.pic, bg.0, Painted(bg.0, DrawPaint(bg.0, d, clip, t.fore)), bg.1,
                   Clip(w.pic.width, w.pic.height, DrawRect(d), clip));
    }
  }

  lemma SizeKept(p: Picture, q: Picture, r: Rect)
    requires p.Valid() && q.Valid() && Covers(p, q, r)
    ensures SameSize(p, q)
  {
  }

  /** For all nine order types the reported rectangle covers every canvas pixel the order changes. A line reports
      its unclipped box, which is only trusted where its coordinates leave room in 32 bits. */
  lemma DrawCovers(w: World, o: Primary)
    requires w.Valid() && (o.orderType == LINE_TO ==> LineDrawable(o.vals))
    ensures var d := DrawOrder(w, o); d.0.pic.Valid() && Covers(w.pic, d.0.pic, d.1)
  {
    hide Painted, Covers, Clip, DrawText, DrawFastGlyph, PaintDraws, Process, LinePaint, LineBox, BitmapTables.Get,
         CodedPaint, RopPaint;
    var (p, v, clip) := (w.pic, o.vals, o.clip);
    NothingCovers(p);
    if o.orderType == DSTBLT {
      RopWithin(p, Clip(p.width, p.height, RectAt(v, 0), clip), ByteAt(v, 4));
      ClipCovers(p, RopPaint(p, Clip(p.width, p.height, RectAt(v, 0), clip), ByteAt(v, 4)), RectAt(v, 0), clip);
    } else if o.orderType == OPAQUE_RECT {
      ClipCovers(p, Solid(Clip(p.width, p.height, RectAt(v, 0), clip),
                          Rgba(ByteAt(v, 4), ByteAt(v, 5), ByteAt(v, 6), 255)), RectAt(v, 0), clip);
    } else if o.orderType == PATBLT {
      var rop := ByteAt(v, 4);
      var c := if rop == 0x00 then BLACK else if rop == 0xFF then WHITE else ColourAt(v, 6);
      ClipCovers(p, Solid(Clip(p.width, p.height, RectAt(v, 0), clip), c), RectAt(v, 0), clip);
    } else if o.orderType == SCRBLT {
      CopyCovers(p, RectAt(v, 0), clip, N(v, 5) - N(v, 0), N(v, 6) - N(v, 1));
    } else if o.orderType == MEMBLT {
      var tile := w.bitmaps.Get(NatAt(v, 0) % 256, NatAt(v, 8));
      GetValid(w.bitmaps, NatAt(v, 0) % 256, NatAt(v, 8));
      if tile.Some? {
        ClipCovers(p, BitmapPaint(Clip(p.width, p.height, RectAt(v, 1), clip), RectAt(v, 1), tile.value, N(v, 6),
                                  N(v, 7)), RectAt(v, 1), clip);
      }
    } else if o.orderType == LINE_TO {
      LineCovers(p, N(v, 1), N(v, 2), N(v, 3), N(v, 4), clip, ColourAt(v, 9));
    } else if o.orderType == GLYPH_INDEX {
      TextCovers(w, FullText(v), clip);
    } else if o.orderType == FAST_INDEX {
      TextCovers(w, FastText(v), clip);
    } else if o.orderType == FAST_GLYPH {
      FastGlyphCovers(w, FastText(v), clip);
    }
  }

  lemma RopWithin(p: Picture, r: Rect, rop: byte)
    requires p.Valid()
    ensures Within(RopPaint(p, r, rop), r)
  {
  }

  lemma LineCovers(p: Picture, x0: int, y0: int, x1: int, y1: int, clip: Option<Rect>, c: Rgba)
    requires p.Valid() && EndsWithin(COORD_BOUND, x0, y0, x1, y1)
    requires Max(x0, x1) - Min(x0, x1) < MAX32 && Max(y0, y1) - Min(y0, y1) < MAX32
    ensures Covers(p, Painted(p, LinePaint(x0, y0, x1, y1, LineLength(x0, y0, x1, y1), clip, c)),
                   LineBox(x0, y0, x1, y1))
  {
    LineWithinBox(p, x0, y0, x1, y1, clip, c);
  }

  lemma CopyCovers(p: Picture, dst: Rect, clip: Option<Rect>, dx: int, dy: int)
    requires p.Valid()
    ensures var box := Clip(p.width, p.height, dst, clip);
            Covers(p, if box.IsEmpty() then p
                   else Painted(p, CodedPaint(p, Window(p.width, p.height, box, dx, dy), dx, dy)), box)
  {
    hide Painted, Picture.Get, WalkOut;
    var box := Clip(p.width, p.height, dst, clip);
    if !box.IsEmpty() {
      ClipCovers(p, CodedPaint(p, Window(p.width, p.height, box, dx, dy), dx, dy), dst, clip);
    }
  }

  // ---- A cached tile lands upright -------------------------------------------------------------

  /** After a tile has been cached raw and blitted, each covered canvas pixel shows the wire pixel of the mapped
      column and of the mapped row counted from the bottom; all other pixels are as before. */
  lemma TileLandsUpright(w: World, o: Primary, depth: ColorDepth, raw: seq<byte>, width: nat, height: nat, x: int,
                         y: int)
    requires w.Valid() && w.pic.Inside(x, y) && o.orderType == 0x0D
    requires 0 < width < 0x1_0000 && height < 0x1_0000 && width * BytesPerPixel(depth) * height <= |raw|
    requires w.bitmaps.Get(NatAt(o.vals, 0) % 256, NatAt(o.vals, 8)) == Some(Tile(depth, raw, width, height))
    ensures var (sx, sy) := (N(o.vals, 6) + (x - N(o.vals, 1)), N(o.vals, 7) + (y - N(o.vals, 2)));
            var q := DrawOrder(w, o).0.pic;
            q.Valid() &&
            if RectAt(o.vals, 1).Has(x, y) && (o.clip.Some? ==> o.clip.value.Has(x, y)) && 0 <= sx < width
                && 0 <= sy < height then
              WireOffset(depth, width, height, sx, sy) + BytesPerPixel(depth) <= |raw|
              && q.Get(x, y) == PixelOf(depth, raw, WireOffset(depth, width, height, sx, sy))
            else q.Get(x, y) == w.pic.Get(x, y)
  {
    hide Painted, Tile, PixelOf, WireOffset, Clip, Picture.Get;
    var (p, v) := (w.pic, o.vals);
    var tile := Tile(depth, raw, width, height);
    var box := Clip(p.width, p.height, RectAt(v, 1), o.clip);
    ClipExact(p.width, p.height, RectAt(v, 1), o.clip, x, y);
    PaintedGet(p, BitmapPaint(box, RectAt(v, 1), tile, N(v, 6), N(v, 7)), x, y);
    TileUpright(depth, raw, width, height);
    var (sx, sy) := (N(v, 6) + (x - N(v, 1)), N(v, 7) + (y - N(v, 2)));
    if tile.Inside(sx, sy) {
      PixelOpaque(depth, raw, WireOffset(depth, width, height, sx, sy));
    }
  }

  // ---- What the other orders leave on the canvas -------------------------------------------------

  /** The pixels an order may touch: those of its destination inside the clip bounds, if it has them. */
  predicate Touches(dst: Rect, clip: Option<Rect>, x: int, y: int) {
    dst.Has(x, y) && (clip.Some? ==> clip.value.Has(x, y))
  }

  /** A rectangle fill: exactly the touched pixels take the colour. */
  lemma FillPixels(w: World, o: Primary, x: int, y: int)
    requires w.Valid() && w.pic.Inside(x, y) && o.orderType in {0x01, 0x0A}
    ensures var (q, v) := (DrawOrder(w, o).0.pic, o.vals);
            && q.Valid()
            && q.Get(x, y) ==
               if !Touches(RectAt(v, 0), o.clip, x, y) then w.pic.Get(x, y)
               else if o.orderType == 0x0A then Rgba(ByteAt(v, 4), ByteAt(v, 5), ByteAt(v, 6), 255)
               else if ByteAt(v, 4) == 0x00 then Rgba(0, 0, 0, 255)
               else if ByteAt(v, 4) == 0xFF then Rgba(255, 255, 255, 255)
               else Opaque(ColourAt(v, 6))
  {
    hide Painted, Clip, Picture.Get, BitmapTables.Valid;
    var (p, v) := (w.pic, o.vals);
    var c := if o.orderType == OPAQUE_RECT then Rgba(ByteAt(v, 4), ByteAt(v, 5), ByteAt(v, 6), 255)
             else if ByteAt(v, 4) == 0x00 then BLACK else if ByteAt(v, 4) == 0xFF then WHITE else ColourAt(v, 6);
    ClipExact(p.width, p.height, RectAt(v, 0), o.clip, x, y);
    PaintedGet(p, Solid(Clip(p.width, p.height, RectAt(v, 0), o.clip), c), x, y);
  }

  /** DSTBLT blackens, whitens or inverts the touched pixels; other raster operations leave them alone. */
  lemma RopPixels(w: World, o: Primary, x: int, y: int)
    requires w.Valid() && w.pic.Inside(x, y) && o.orderType == 0x00
    ensures var (q, rop, c) := (DrawOrder(w, o).0.pic, ByteAt(o.vals, 4), w.pic.Get(x, y));
            && q.Valid()
            && q.Get(x, y) ==
               if !Touches(RectAt(o.vals, 0), o.clip, x, y) then c
               else if rop == 0x00 then Rgba(0, 0, 0, 255)
               else if rop == 0xFF then Rgba(255, 255, 255, 255)
               else if rop == 0x55 then Rgba(255 - c.r, 255 - c.g, 255 - c.b, 255)
               else c
  {
    hide Painted, Clip, Picture.Get, BitmapTables.Valid;
    var p := w.pic;
    var box := Clip(p.width, p.height, RectAt(o.vals, 0), o.clip);
    ClipExact(p.width, p.height, RectAt(o.vals, 0), o.clip, x, y);
    PaintedGet(p, RopPaint(p, box, ByteAt(o.vals, 4)), x, y);
  }

  /** Inverting twice gives the colours back, opaquely. */
  lemma InvertTwice(w: World, o: Primary, x: int, y: int)
    requires w.Valid() && w.pic.Inside(x, y) && o.orderType == 0x00 && ByteAt(o.vals, 4) == 0x55
    ensures var q := DrawOrder(DrawOrder(w, o).0, o).0.pic;
            q.Valid() && q.Get(x, y) == if Touches(RectAt(o.vals, 0), o.clip, x, y) then Opaque(w.pic.Get(x, y))
                else w.pic.Get(x, y)
  {
    hide Painted, Clip, Picture.Get, BitmapTables.Valid;
    var p := w.pic;
    var box := Clip(p.width, p.height, RectAt(o.vals, 0), o.clip);
    ClipExact(p.width, p.height, RectAt(o.vals, 0), o.clip, x, y);
    PaintedGet(p, Inverted(p, box), x, y);
    var m := Painted(p, Inverted(p, box));
    PaintedGet(m, Inverted(m, box), x, y);
  }

  /** A screen copy whose destination does not overlap its source: every touched pixel with a source on the canvas
      takes the colour its source had before, and all others are as before. */
  lemma ScreenCopyPixels(w: World, o: Primary, x: int, y: int)
    requires w.Valid() && w.pic.Inside(x, y) && o.orderType == 0x02
    requires var (p, v) := (w.pic, o.vals);
             NoOverlap(Window(p.width, p.height, Clip(p.width, p.height, RectAt(v, 0), o.clip), N(v, 5) - N(v, 0),
                              N(v, 6) - N(v, 1)),
                       N(v, 5) - N(v, 0), N(v, 6) - N(v, 1))
    ensures var (q, v) := (DrawOrder(w, o).0.pic, o.vals);
            var (sx, sy) := (N(v, 5) + (x - N(v, 0)), N(v, 6) + (y - N(v, 1)));
            && q.Valid()
            && q.Get(x, y) ==
               if Touches(RectAt(v, 0), o.clip, x, y) && w.pic.Inside(sx, sy) then Opaque(w.pic.Get(sx, sy))
               else w.pic.Get(x, y)
  {
    hide Painted, Clip, Picture.Get, BitmapTables.Valid, WalkOut, Window, NoOverlap;
    var (p, v) := (w.pic, o.vals);
    var box := Clip(p.width, p.height, RectAt(v, 0), o.clip);
    var (dx, dy) := (N(v, 5) - N(v, 0), N(v, 6) - N(v, 1));
    var r := Window(p.width, p.height, box, dx, dy);
    ClipExact(p.width, p.height, RectAt(v, 0), o.clip, x, y);
    WindowExact(p.width, p.height, box, dx, dy, x, y);
    if !box.IsEmpty() {
      NoOverlapSame(p, r, dx, dy);
      PaintedGet(p, SimultaneousPaint(p, r, dx, dy), x, y);
    }
  }

  /** A line: exactly the touched pixels among its points take the pen colour. */
  lemma LinePixels(w: World, o: Primary, x: int, y: int)
    requires w.Valid() && w.pic.Inside(x, y) && o.orderType == 0x09
    ensures var (q, v) := (DrawOrder(w, o).0.pic, o.vals);
            var n := LineLength(N(v, 1), N(v, 2), N(v, 3), N(v, 4));
            && q.Valid()
            && var touched := OnLine(N(v, 1), N(v, 2), N(v, 3), N(v, 4), n, x, y)
                             && (o.clip.Some? ==> o.clip.value.Has(x, y));
              q.Get(x, y) == if touched then Opaque(ColourAt(v, 9)) else w.pic.Get(x, y)
  {
    hide Painted, Picture.Get, BitmapTables.Valid, OnLine;
    var v := o.vals;
    var n := LineLength(N(v, 1), N(v, 2), N(v, 3), N(v, 4));
    PaintedGet(w.pic, LinePaint(N(v, 1), N(v, 2), N(v, 3), N(v, 4), n, o.clip, ColourAt(v, 9)), x, y);
  }
}
