/**
 What each non-text order leaves on a canvas pixel, by the numbers of its fields in literal positions. The text orders
 are in `TextPixels`.
 */
module OrderPixels {
  import opened Options
  import opened Bits
  import opened Rects
  import opened Pictures
  import opened ScreenCopy
  import opened Canvas
  import opened Lines
  import opened Fields
  import opened Orders
  import opened Bitmaps
  import opened Render
  import opened TextPixels

  /** The pixels of a rectangle with corner (l, t), width and height, inside the clip if there is one. */
  predicate Covered(l: int, t: int, width: int, height: int, clip: Option<Rect>, x: int, y: int) {
    l <= x < l + width && t <= y < t + height && InClip(clip, x, y)
  }

  /** Bounds become an inclusive clip, cut at 2^31 - 1 pixels. */
  lemma BoundsAreInclusive(b: Bounds, x: int, y: int)
    ensures InClip(Some(BoundsRect(b)), x, y)
            <==> b.left <= x <= b.right && b.top <= y <= b.bottom && x - b.left < 0x7FFF_FFFF && y - b.top < 0x7FFF_FFFF
  {
  }

  /** DSTBLT: black, white, inverted, or left alone. */
  lemma DstBltPixels(w: World, o: Primary, l: int, t: int, width: int, height: int, rop: byte, x: int, y: int)
    requires w.Valid() && w.pic.Inside(x, y) && o.orderType == 0x00
    requires o.vals == [Num(l), Num(t), Num(width), Num(height), Num(rop)]
    ensures var (q, c) := (DrawOrder(w, o).0.pic, w.pic.Get(x, y));
            && q.Valid()
            && q.Get(x, y) ==
               if !Covered(l, t, width, height, o.clip, x, y) then c
               else if rop == 0x00 then Rgba(0, 0, 0, 255)
               else if rop == 0xFF then Rgba(255, 255, 255, 255)
               else if rop == 0x55 then Rgba(255 - c.r, 255 - c.g, 255 - c.b, 255)
               else c
  {
    hide DrawOrder, Picture.Get;
    RopPixels(w, o, x, y);
  }

  /** OPAQUE_RECT: the colour of its red, green and blue field. */
  lemma OpaqueRectPixels(w: World, o: Primary, l: int, t: int, width: int, height: int, red: byte, green: byte,
                         blue: byte, x: int, y: int)
    requires w.Valid() && w.pic.Inside(x, y) && o.orderType == 0x0A
    requires o.vals == [Num(l), Num(t), Num(width), Num(height), Num(red), Num(green), Num(blue)]
    ensures var q := DrawOrder(w, o).0.pic;
            && q.Valid()
            && q.Get(x, y) == if Covered(l, t, width, height, o.clip, x, y) then Rgba(red, green, blue, 255)
                              else w.pic.Get(x, y)
  {
    hide DrawOrder, Picture.Get;
    FillPixels(w, o, x, y);
  }

  /** PATBLT: black, white or the fore colour. */
  lemma PatBltPixels(w: World, o: Primary, l: int, t: int, width: int, height: int, rop: byte, back: Rgba, fore: Rgba,
                     x: int, y: int)
    requires w.Valid() && w.pic.Inside(x, y) && o.orderType == 0x01
    requires [Num(l), Num(t), Num(width), Num(height), Num(rop), Colour(back), Colour(fore)] <= o.vals
    ensures var q := DrawOrder(w, o).0.pic;
            && q.Valid()
            && q.Get(x, y) ==
               if !Covered(l, t, width, height, o.clip, x, y) then w.pic.Get(x, y)
               else if rop == 0x00 then Rgba(0, 0, 0, 255)
               else if rop == 0xFF then Rgba(255, 255, 255, 255)
               else Opaque(fore)
  {
    hide DrawOrder, Picture.Get;
    FillPixels(w, o, x, y);
  }

  /** SCRBLT, where destination and source do not overlap: the colours the source had before, where it lies on the
      canvas. */
  lemma ScrBltPixels(w: World, o: Primary, l: int, t: int, width: int, height: int, rop: byte, srcX: int, srcY: int,
                     x: int, y: int)
    requires w.Valid() && w.pic.Inside(x, y) && o.orderType == 0x02
    requires o.vals == [Num(l), Num(t), Num(width), Num(height), Num(rop), Num(srcX), Num(srcY)]
    requires srcX + width <= l || l + width <= srcX || srcY + height <= t || t + height <= srcY
    ensures var (sx, sy) := (srcX + (x - l), srcY + (y - t));
            var q := DrawOrder(w, o).0.pic;
            && q.Valid()
            && q.Get(x, y) ==
               if Covered(l, t, width, height, o.clip, x, y) && 0 <= sx < w.pic.width && 0 <= sy < w.pic.height
               then Opaque(w.pic.Get(sx, sy)) else w.pic.Get(x, y)
  {
    hide DrawOrder, Picture.Get, Clip;
    var p := w.pic;
    var box := Clip(p.width, p.height, Rect(l, t, width, height), o.clip);
    ClipWithin(p, Rect(l, t, width, height), o.clip);
    assert NoOverlap(Window(p.width, p.height, box, srcX - l, srcY - t), srcX - l, srcY - t);
    ScreenCopyPixels(w, o, x, y);
  }

  lemma ClipWithin(p: Picture, dst: Rect, clip: Option<Rect>)
    requires p.Valid()
    ensures var box := Clip(p.width, p.height, dst, clip);
            box.IsEmpty() || (dst.x <= box.x && dst.y <= box.y && box.x + box.w <= dst.x + dst.w
                              && box.y + box.h <= dst.y + dst.h)
  {
    hide Clip;
    var box := Clip(p.width, p.height, dst, clip);
    if !box.IsEmpty() {
      ClipExact(p.width, p.height, dst, clip, box.x, box.y);
      ClipExact(p.width, p.height, dst, clip, box.x + box.w - 1, box.y + box.h - 1);
    }
  }

  /** MEMBLT: the cached tile, its pixel (srcX, srcY) on the corner; nothing where it does not reach. */
  lemma MemBltPixels(w: World, o: Primary, cacheId: nat, l: int, t: int, width: int, height: int, rop: byte, srcX: int,
                     srcY: int, index: nat, x: int, y: int)
    requires w.Valid() && w.pic.Inside(x, y) && o.orderType == 0x0D && cacheId < 65536 && index < 65536
    requires o.vals == [Num(cacheId), Num(l), Num(t), Num(width), Num(height), Num(rop), Num(srcX), Num(srcY),
                        Num(index)]
    ensures var tile := w.bitmaps.Get(cacheId % 256, index);
            var (sx, sy) := (srcX + (x - l), srcY + (y - t));
            var q := DrawOrder(w, o).0.pic;
            && q.Valid() && (tile.Some? ==> tile.value.Valid())
            && q.Get(x, y) ==
               if tile.Some? && Covered(l, t, width, height, o.clip, x, y) && 0 <= sx < tile.value.width
                  && 0 <= sy < tile.value.height
               then Opaque(tile.value.Get(sx, sy)) else w.pic.Get(x, y)
  {
    hide Painted, Picture.Get, Clip, BitmapTables.Get, BitmapTables.Valid;
    GetValid(w.bitmaps, cacheId % 256, index);
    var tile := w.bitmaps.Get(cacheId % 256, index);
    if tile.Some? {
      var p, dst := w.pic, Rect(l, t, width, height);
      ClipExact(p.width, p.height, dst, o.clip, x, y);
      PaintedGet(p, BitmapPaint(Clip(p.width, p.height, dst, o.clip), dst, tile.value, srcX, srcY), x, y);
    }
  }

  /** LINE_TO: the pixels of the rounded ideal line take the pen colour, both ends included. */
  lemma LineToPixels(w: World, o: Primary, x0: int, y0: int, x1: int, y1: int, pen: Rgba, x: int, y: int)
    requires w.Valid() && w.pic.Inside(x, y) && o.orderType == 0x09 && |o.vals| == 10
    requires o.vals[1..5] == [Num(x0), Num(y0), Num(x1), Num(y1)] && o.vals[9] == Colour(pen)
    ensures var q := DrawOrder(w, o).0.pic;
            && q.Valid()
            && q.Get(x, y) == if OnIdeal(x0, y0, x1, y1, x, y) && InClip(o.clip, x, y) then Opaque(pen)
                              else w.pic.Get(x, y)
  {
    hide DrawOrder, Picture.Get, OnLine, OnIdeal;
    var v := o.vals;
    assert v[1..5][0] == v[1] && v[1..5][1] == v[2] && v[1..5][2] == v[3] && v[1..5][3] == v[4];
    LinePixels(w, o, x, y);
    OnLineIff(x0, y0, x1, y1, x, y);
  }
}
