/** The RGBA framebuffer that drawing orders paint into, and its blit primitives. */
module Canvas {
  import opened Options
  import opened Bits
  import opened Rects
  import opened Pictures
  import opened ScreenCopy

  const BLACK := Rgba(0, 0, 0, 255)
  const WHITE := Rgba(255, 255, 255, 255)

  /** What a destination-only raster operation paints: BLACKNESS, WHITENESS, DSTINVERT, or nothing. */
  function RopPaint(p: Picture, r: Rect, rop: byte): Paint
    requires p.Valid()
  {
    if rop == 0x00 then Solid(r, BLACK)
    else if rop == 0xFF then Solid(r, WHITE)
    else if rop == 0x55 then Inverted(p, r)
    else Solid(Rect(0, 0, 0, 0), BLACK)
  }

  /** `q` is `p` with `f` painted on all pixels before (x, y) in reading order. */
  ghost predicate UpTo(p: Picture, q: Picture, f: Paint, x: int, y: int) {
    && p.Valid() && q.Valid() && SameSize(p, q)
    && forall a, b :: p.Inside(a, b) ==>
         q.Get(a, b) == if (b < y || (b == y && a < x)) && f(a, b).Some? then Opaque(f(a, b).value) else p.Get(a, b)
  }

  ghost predicate Within(f: Paint, r: Rect) {
    forall x, y :: f(x, y).Some? ==> r.Has(x, y)
  }

  lemma StartPaint(p: Picture, f: Paint, r: Rect)
    requires p.Valid() && Within(f, r)
    ensures UpTo(p, p, f, r.x, r.y)
  {
  }

  lemma NextRow(p: Picture, q: Picture, f: Paint, r: Rect, y: int)
    requires Within(f, r) && UpTo(p, q, f, r.x + r.w, y)
    ensures UpTo(p, q, f, r.x, y + 1)
  {
  }

  lemma EndPaint(p: Picture, q: Picture, f: Paint, r: Rect)
    requires Within(f, r) && UpTo(p, q, f, r.x, r.y + r.h)
    ensures q == Painted(p, f)
  {
    PaintedBy(p, f, q);
  }

  lemma NothingPainted(p: Picture, f: Paint, r: Rect)
    requires p.Valid() && Within(f, r) && r.IsEmpty()
    ensures p == Painted(p, f)
  {
    PaintedBy(p, f, p);
  }

  /** `q` is `p` with `f` painted on all pixels that a scan visits before (x, y). */
  ghost predicate ScannedTo(p: Picture, q: Picture, f: Paint, reverseX: bool, reverseY: bool, x: int, y: int) {
    && p.Valid() && q.Valid() && SameSize(p, q)
    && forall a, b :: p.Inside(a, b) ==>
         q.Get(a, b) == if Before(reverseX, reverseY, a, b, x, y) && f(a, b).Some? then Opaque(f(a, b).value)
             else p.Get(a, b)
  }

  /** One pixel further along the row. */
  lemma NextScanned(p: Picture, q: Picture, q2: Picture, f: Paint, reverseX: bool, reverseY: bool, x: int, y: int)
    requires ScannedTo(p, q, f, reverseX, reverseY, x, y) && q2.Valid() && SameSize(p, q2) && p.Inside(x, y)
    requires forall a, b :: p.Inside(a, b) && (a, b) != (x, y) ==> q2.Get(a, b) == q.Get(a, b)
    requires q2.Get(x, y) == if f(x, y).Some? then Opaque(f(x, y).value) else q.Get(x, y)
    ensures ScannedTo(p, q2, f, reverseX, reverseY, if reverseX then x - 1 else x + 1, y)
  {
    hide Picture.Get, Opaque;
  }

  lemma NextScanRow(p: Picture, q: Picture, f: Paint, r: Rect, reverseX: bool, reverseY: bool, y: int)
    requires Within(f, r)
    requires ScannedTo(p, q, f, reverseX, reverseY, if reverseX then r.x - 1 else r.x + r.w, y)
    ensures ScannedTo(p, q, f, reverseX, reverseY, if reverseX then r.x + r.w - 1 else r.x,
                      if reverseY then y - 1 else y + 1)
  {
  }

  lemma EndScan(p: Picture, q: Picture, f: Paint, r: Rect, reverseX: bool, reverseY: bool)
    requires Within(f, r) && !r.IsEmpty()
    requires ScannedTo(p, q, f, reverseX, reverseY, if reverseX then r.x + r.w - 1 else r.x,
                       if reverseY then r.y - 1 else r.y + r.h)
    ensures q == Painted(p, f)
  {
    PaintedBy(p, f, q);
  }

  /** The colour a scan reads at its next pixel is the one the paint asks for. */
  lemma ScanReads(p: Picture, q: Picture, f: Paint, r: Rect, dx: int, dy: int, reverseX: bool, reverseY: bool, x: int,
                  y: int)
    requires ScanYields(p, f, r, dx, dy, reverseX, reverseY) && ScannedTo(p, q, f, reverseX, reverseY, x, y)
    requires r.Has(x, y) && p.Inside(x + dx, y + dy)
    ensures f(x, y).Some? && Opaque(q.Get(x + dx, y + dy)) == f(x, y).value
  {
    hide Picture.Get;
    var (sx, sy) := (x + dx, y + dy);
    assert q.Get(sx, sy) == if Before(reverseX, reverseY, sx, sy, x, y) && f(sx, sy).Some? then Opaque(f(sx, sy).value)
           else p.Get(sx, sy);
  }

  class OrderCanvas {
    var width: nat
    var height: nat
    var data: array<byte>

    ghost predicate Valid()
      reads this, data
    {
      Pic().Valid()
    }

    ghost function Pic(): Picture
      reads this, data
    {
      Picture(width, height, data[..])
    }

    constructor (width: nat, height: nat)
      requires width < 0x1_0000 && height < 0x1_0000
      ensures Valid() && fresh(data) && this.width == width && this.height == height
      ensures forall i :: 0 <= i < data.Length ==> data[i] == 0
    {
      this.width, this.height := width, height;
      data := new byte[width * height * 4](_ => 0);
    }

    /** Reactivation: the new framebuffer is cleared. */
    method Resize(width: nat, height: nat)
      requires width < 0x1_0000 && height < 0x1_0000
      modifies this
      ensures Valid() && fresh(data) && this.width == width && this.height == height
      ensures forall i :: 0 <= i < data.Length ==> data[i] == 0
    {
      this.width, this.height := width, height;
      data := new byte[width * height * 4](_ => 0);
    }

    method Get(x: int, y: int) returns (c: Rgba)
      requires Valid()
      ensures c == Pic().Get(x, y)
    {
      if !(x >= 0 && y >= 0 && x < width && y < height) {
        return BLACK;
      }
      IndexInside(width, height, x, y);
      var i := Index(width, x, y);
      c := Rgba(data[i], data[i + 1], data[i + 2], data[i + 3]);
    }

    method Put(x: int, y: int, c: Rgba)
      requires Valid()
      modifies data
      ensures Valid()
      ensures forall a, b :: Pic().Inside(a, b) ==>
                Pic().Get(a, b) == if a == x && b == y then Opaque(c) else old(Pic()).Get(a, b)
    {
      if !(x >= 0 && y >= 0 && x < width && y < height) {
        return;
      }
      hide Index;
      IndexInside(width, height, x, y);
      var i := Index(width, x, y);
      data[i] := c.r;
      data[i + 1] := c.g;
      data[i + 2] := c.b;
      data[i + 3] := 255;
      forall a, b | Pic().Inside(a, b)
        ensures Pic().Get(a, b) == if a == x && b == y then Opaque(c) else old(Pic()).Get(a, b)
      {
        if (a, b) != (x, y) {
          IndexDistinct(width, a, b, x, y);
          IndexInside(width, height, a, b);
        }
      }
    }

    function ClipTo(dst: Rect, bounds: Option<Rect>): Rect
      reads this
    {
      Clip(width, height, dst, bounds)
    }

    method FillRect(dst: Rect, bounds: Option<Rect>, color: Rgba) returns (r: Rect)
      requires Valid()
      modifies data
      ensures Valid() && r == ClipTo(dst, bounds)
      ensures Pic() == Painted(old(Pic()), Solid(r, color))
    {
      r := ClipTo(dst, bounds);
      ghost var p, f := Pic(), Solid(r, color);
      if r.IsEmpty() {
        NothingPainted(p, f, r);
        return;
      }
      ClipInside(width, height, dst, bounds);
      StartPaint(p, f, r);
      for y := r.y to r.Bottom()
        invariant UpTo(p, Pic(), f, r.x, y)
      {
        for x := r.x to r.Right()
          invariant UpTo(p, Pic(), f, x, y)
        {
          Put(x, y, color);
        }
        NextRow(p, Pic(), f, r, y);
      }
      EndPaint(p, Pic(), f, r);
    }

    method BlitGlyph(x: int, y: int, cx: nat, cy: nat, aj: seq<byte>, bounds: Option<Rect>, color: Rgba)
        returns (r: Rect)
      requires Valid()
      modifies data
      ensures Valid() && r == ClipTo(Rect(x, y, cx, cy), bounds)
      ensures Pic() == Painted(old(Pic()), GlyphPaint(r, x, y, cx, aj, color))
    {
      hide Picture.Get, Opaque, GlyphBit;
      r := ClipTo(Rect(x, y, cx, cy), bounds);
      ghost var p, f := Pic(), GlyphPaint(r, x, y, cx, aj, color);
      if r.IsEmpty() {
        NothingPainted(p, f, r);
        return;
      }
      ClipInside(width, height, Rect(x, y, cx, cy), bounds);
      ClipExact(width, height, Rect(x, y, cx, cy), bounds, r.x, r.y);
      StartPaint(p, f, r);
      for py := r.y to r.Bottom()
        invariant UpTo(p, Pic(), f, r.x, py)
      {
        for px := r.x to r.Right()
          invariant UpTo(p, Pic(), f, px, py)
        {
          if GlyphBit(cx, aj, px - x, py - y) {
            Put(px, py, color);
          }
        }
        NextRow(p, Pic(), f, r, py);
      }
      EndPaint(p, Pic(), f, r);
    }

    method DstRop(dst: Rect, bounds: Option<Rect>, rop: byte) returns (r: Rect)
      requires Valid()
      modifies data
      ensures Valid() && r == ClipTo(dst, bounds)
      ensures Pic() == Painted(old(Pic()), RopPaint(old(Pic()), r, rop))
    {
      r := ClipTo(dst, bounds);
      ghost var p, f := Pic(), RopPaint(Pic(), r, rop);
      if r.IsEmpty() {
        NothingPainted(p, f, r);
        return;
      }
      if rop == 0x00 {
        var _ := FillRect(dst, bounds, BLACK);
      } else if rop == 0xFF {
        var _ := FillRect(dst, bounds, WHITE);
      } else if rop == 0x55 {
        ClipInside(width, height, dst, bounds);
        Invert(r);
      } else {
        NothingPainted(p, f, Rect(0, 0, 0, 0));
      }
    }

    method Invert(r: Rect)
      requires Valid() && !r.IsEmpty() && 0 <= r.x && 0 <= r.y && r.x + r.w <= width && r.y + r.h <= height
      modifies data
      ensures Valid() && Pic() == Painted(old(Pic()), Inverted(old(Pic()), r))
    {
      ghost var p, f := Pic(), Inverted(Pic(), r);
      StartPaint(p, f, r);
      for y := r.y to r.Bottom()
        invariant UpTo(p, Pic(), f, r.x, y)
      {
        for x := r.x to r.Right()
          invariant UpTo(p, Pic(), f, x, y)
        {
          assert p.Inside(x, y);
          var c := Get(x, y);
          Put(x, y, Rgba(255 - c.r, 255 - c.g, 255 - c.b, 255));
        }
        NextRow(p, Pic(), f, r, y);
      }
      EndPaint(p, Pic(), f, r);
    }

    method BlitBitmap(dst: Rect, bounds: Option<Rect>, src: Picture, srcX: int, srcY: int) returns (r: Rect)
      requires Valid() && src.Valid()
      modifies data
      ensures Valid() && r == ClipTo(dst, bounds)
      ensures Pic() == Painted(old(Pic()), BitmapPaint(r, dst, src, srcX, srcY))
    {
      hide Picture.Get, Opaque;
      r := ClipTo(dst, bounds);
      ghost var p, f := Pic(), BitmapPaint(r, dst, src, srcX, srcY);
      if r.IsEmpty() {
        NothingPainted(p, f, r);
        return;
      }
      ClipInside(width, height, dst, bounds);
      StartPaint(p, f, r);
      for y := r.y to r.Bottom()
        invariant UpTo(p, Pic(), f, r.x, y)
      {
        for x := r.x to r.Right()
          invariant UpTo(p, Pic(), f, x, y)
        {
          var sx, sy := srcX + (x - dst.x), srcY + (y - dst.y);
          if src.Inside(sx, sy) {
            Put(x, y, src.Get(sx, sy));
          }
        }
        NextRow(p, Pic(), f, r, y);
      }
      EndPaint(p, Pic(), f, r);
    }

    /** Screen-to-screen copy, with the scan direction as coded: away from the origin of the displacement. */
    method CopyRect(dst: Rect, bounds: Option<Rect>, srcX: int, srcY: int) returns (r: Rect)
      requires Valid()
      modifies data
      ensures Valid() && r == ClipTo(dst, bounds)
      ensures var (dx, dy) := (srcX - dst.x, srcY - dst.y);
              Pic() == if r.IsEmpty() then old(Pic())
                       else Painted(old(Pic()), CodedPaint(old(Pic()), Window(width, height, r, dx, dy), dx, dy))
    {
      r := ClipTo(dst, bounds);
      if r.IsEmpty() {
        return;
      }
      ClipInside(width, height, dst, bounds);
      var dx, dy := srcX - dst.x, srcY - dst.y;
      var reverseX := dx > 0;
      var reverseY := dy > 0;
      ghost var window := Window(width, height, r, dx, dy);
      CodedScan(Pic(), window, dx, dy);
      CopyPixels(r, dx, dy, reverseX, reverseY, CodedPaint(Pic(), window, dx, dy));
    }

    /** The same copy with the opposite scan direction: the overlap-safe copy that the documentation describes. */
    method CopyRectOpposite(dst: Rect, bounds: Option<Rect>, srcX: int, srcY: int) returns (r: Rect)
      requires Valid()
      modifies data
      ensures Valid() && r == ClipTo(dst, bounds)
      ensures var (dx, dy) := (srcX - dst.x, srcY - dst.y);
              Pic() == if r.IsEmpty() then old(Pic())
                       else Painted(old(Pic()), SimultaneousPaint(old(Pic()), Window(width, height, r, dx, dy), dx, dy))
    {
      r := ClipTo(dst, bounds);
      if r.IsEmpty() {
        return;
      }
      ClipInside(width, height, dst, bounds);
      var dx, dy := srcX - dst.x, srcY - dst.y;
      var reverseX := dx < 0;
      var reverseY := dy < 0;
      ghost var window := Window(width, height, r, dx, dy);
      IntendedScan(Pic(), window, dx, dy);
      CopyPixels(r, dx, dy, reverseX, reverseY, SimultaneousPaint(Pic(), window, dx, dy));
    }

    method CopyPixels(r: Rect, dx: int, dy: int, reverseX: bool, reverseY: bool, ghost f: Paint)
      requires Valid() && !r.IsEmpty() && 0 <= r.x && 0 <= r.y && r.x + r.w <= width && r.y + r.h <= height
      requires ScanYields(Pic(), f, Window(width, height, r, dx, dy), dx, dy, reverseX, reverseY)
      modifies data
      ensures Valid() && Pic() == Painted(old(Pic()), f)
    {
      hide Picture.Get, Window, ScanYields, Opaque, CodedPaint, SimultaneousPaint, ScannedTo;
      ghost var p, window := Pic(), Window(width, height, r, dx, dy);
      ScanSupport(p, f, r, dx, dy, reverseX, reverseY);
      for k := 0 to r.h
        invariant ScannedTo(p, Pic(), f, reverseX, reverseY,
                            if reverseX then r.x + r.w - 1 else r.x, if reverseY then r.y + r.h - 1 - k else r.y + k)
      {
        var y := if reverseY then r.y + r.h - 1 - k else r.y + k;
        for l := 0 to r.w
          invariant ScannedTo(p, Pic(), f, reverseX, reverseY, if reverseX then r.x + r.w - 1 - l else r.x + l, y)
        {
          var x := if reverseX then r.x + r.w - 1 - l else r.x + l;
          var sx, sy := x + dx, y + dy;
          ghost var q := Pic();
          WindowExact(width, height, r, dx, dy, x, y);
          if !(sx < 0 || sy < 0 || sx >= width || sy >= height) {
            ScanReads(p, Pic(), f, window, dx, dy, reverseX, reverseY, x, y);
            var c := Get(sx, sy);
            Put(x, y, c);
          }
          NextScanned(p, q, Pic(), f, reverseX, reverseY, x, y);
        }
        NextScanRow(p, Pic(), f, r, reverseX, reverseY, y);
      }
      EndScan(p, Pic(), f, r, reverseX, reverseY);
    }
  }

  lemma ScanSupport(p: Picture, f: Paint, r: Rect, dx: int, dy: int, reverseX: bool, reverseY: bool)
    requires p.Valid()
    requires ScanYields(p, f, Window(p.width, p.height, r, dx, dy), dx, dy, reverseX, reverseY)
    ensures Within(f, r)
    ensures forall x, y :: f(x, y).Some? ==> Window(p.width, p.height, r, dx, dy).Has(x, y)
    ensures forall x, y :: f(x, y).Some? ==> Opaque(f(x, y).value) == f(x, y).value
    ensures !r.IsEmpty() ==> ScannedTo(p, p, f, reverseX, reverseY,
                               if reverseX then r.x + r.w - 1 else r.x, if reverseY then r.y + r.h - 1 else r.y)
  {
  }
}
