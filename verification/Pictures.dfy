/** Flat RGBA pictures, four bytes a pixel, row by row: the layout every framebuffer of the client shares. */
module Pictures {
  import opened Options
  import opened Arith
  import opened Bits
  import opened Rects

  datatype Rgba = Rgba(r: byte, g: byte, b: byte, a: byte)

  function Opaque(c: Rgba): Rgba { c.(a := 255) }

  function Index(width: nat, x: nat, y: nat): nat {
    (y * width + x) * 4
  }

  lemma IndexInside(width: nat, height: nat, x: nat, y: nat)
    requires x < width && y < height
    ensures Index(width, x, y) + 4 <= width * height * 4
    ensures Index(width, x, y) == 4 * (y * width) + 4 * x
  {
    MulLe(width, y + 1, height);
    MulSucc(width, y);
    assert y * width == width * y && width * height == height * width;
  }

  lemma IndexDistinct(width: nat, x: nat, y: nat, x2: nat, y2: nat)
    requires x < width && x2 < width && (x, y) != (x2, y2)
    ensures Index(width, x, y) + 4 <= Index(width, x2, y2) || Index(width, x2, y2) + 4 <= Index(width, x, y)
  {
    if y * width + x == y2 * width + x2 {
      assert y * width == width * y && y2 * width == width * y2;
      QuotientUnique(width, y, x, y2, x2);
    }
  }

  /** Every byte belongs to a pixel. */
  lemma PixelOfByte(width: nat, height: nat, i: nat) returns (x: nat, y: nat, c: nat)
    requires i < width * height * 4
    ensures x < width && y < height && c < 4 && i == Index(width, x, y) + c
  {
    var p := i / 4;
    assert p < width * height;
    assert width > 0;
    c := i % 4;
    y := p / width;
    x := p % width;
    Euclid(p, width);
    assert y < height by {
      if y >= height {
        MulLe(width, height, y);
      }
    }
    assert width * y == y * width;
  }

  datatype Picture = Picture(width: nat, height: nat, data: seq<byte>) {
    predicate Valid() {
      width < 0x1_0000 && height < 0x1_0000 && |data| == width * height * 4
    }

    predicate Inside(x: int, y: int) {
      0 <= x < width && 0 <= y < height
    }

    /** Reads outside give opaque black. */
    function Get(x: int, y: int): Rgba
      requires Valid()
    {
      if !Inside(x, y) then Rgba(0, 0, 0, 255)
      else
        IndexInside(width, height, x, y);
        var i := Index(width, x, y);
        Rgba(data[i], data[i + 1], data[i + 2], data[i + 3])
    }
  }

  predicate SameSize(p: Picture, q: Picture) {
    p.width == q.width && p.height == q.height
  }

  /** A cleared framebuffer. */
  function Blank(width: nat, height: nat): (p: Picture)
    requires width < 0x1_0000 && height < 0x1_0000
    ensures p.Valid() && p.width == width && p.height == height
    ensures forall i :: 0 <= i < |p.data| ==> p.data[i] == 0
  {
    Picture(width, height, seq(width * height * 4, _ => 0 as byte))
  }

  lemma SamePicture(p: Picture, q: Picture)
    requires p.Valid() && q.Valid() && SameSize(p, q)
    requires forall x, y :: p.Inside(x, y) ==> p.Get(x, y) == q.Get(x, y)
    ensures p == q
  {
    forall i | 0 <= i < |p.data|
      ensures p.data[i] == q.data[i]
    {
      var x, y, c := PixelOfByte(p.width, p.height, i);
      assert p.Get(x, y) == q.Get(x, y);
    }
  }

  /** A paint says for each pixel which colour it takes, if any. */
  type Paint = (int, int) -> Option<Rgba>

  function Channel(c: Rgba, k: nat): byte {
    if k == 0 then c.r else if k == 1 then c.g else if k == 2 then c.b else 255
  }

  /** The picture with `f` painted over it, opaquely. */
  function Painted(p: Picture, f: Paint): (q: Picture)
    requires p.Valid()
    ensures q.Valid() && SameSize(p, q)
  {
    Picture(p.width, p.height, seq(|p.data|, i requires 0 <= i < |p.data| => PaintedByte(p, f, i)))
  }

  function PaintedByte(p: Picture, f: Paint, i: nat): byte
    requires p.Valid() && i < |p.data|
  {
    if p.width == 0 then p.data[i]
    else
      var c := f(i / 4 % p.width, i / 4 / p.width);
      if c.Some? then Channel(c.value, i % 4) else p.data[i]
  }

  lemma QuarterOf(n: nat)
    ensures n * 4 / 4 == (n * 4 + 1) / 4 == (n * 4 + 2) / 4 == (n * 4 + 3) / 4 == n
    ensures n * 4 % 4 == 0 && (n * 4 + 1) % 4 == 1 && (n * 4 + 2) % 4 == 2 && (n * 4 + 3) % 4 == 3
  {
  }

  lemma PaintedGet(p: Picture, f: Paint, x: int, y: int)
    requires p.Valid() && p.Inside(x, y)
    ensures Painted(p, f).Get(x, y) == if f(x, y).Some? then Opaque(f(x, y).value) else p.Get(x, y)
  {
    var i := Index(p.width, x, y);
    IndexInside(p.width, p.height, x, y);
    QuarterOf(y * p.width + x);
    DivMod(y, p.width, x);
  }

  /** A picture that agrees pixel by pixel with a paint is the painted picture. */
  lemma PaintedBy(p: Picture, f: Paint, q: Picture)
    requires p.Valid() && q.Valid() && SameSize(p, q)
    requires forall x, y :: p.Inside(x, y) ==> q.Get(x, y) == if f(x, y).Some? then Opaque(f(x, y).value)
             else p.Get(x, y)
    ensures q == Painted(p, f)
  {
    var r := Painted(p, f);
    forall x, y | r.Inside(x, y)
      ensures r.Get(x, y) == q.Get(x, y)
    {
      PaintedGet(p, f, x, y);
    }
    SamePicture(r, q);
  }

  // ---- The paints of the drawing primitives ----------------------------------------

  function Solid(r: Rect, c: Rgba): Paint {
    (x, y) => if r.Has(x, y) then Some(c) else None
  }

  function Inverted(p: Picture, r: Rect): Paint
    requires p.Valid()
  {
    (x: int, y: int) =>
      if r.Has(x, y) then
        var c := p.Get(x, y);
        Some(Rgba(255 - c.r, 255 - c.g, 255 - c.b, 255))
      else None
  }

  function RowBytes(cx: nat): nat { (cx + 7) / 8 }

  /** Bit of a one-bit-per-pixel glyph; rows are whole bytes, missing bytes read as zero. */
  predicate GlyphBit(cx: nat, aj: seq<byte>, gx: nat, gy: nat) {
    var i := gy * RowBytes(cx) + gx / 8;
    i < |aj| && ByteBit(aj[i], gx % 8) == 1
  }

  function GlyphPaint(r: Rect, gx: int, gy: int, cx: nat, aj: seq<byte>, c: Rgba): Paint {
    (x: int, y: int) =>
      if r.Has(x, y) && gx <= x && gy <= y && GlyphBit(cx, aj, x - gx, y - gy) then Some(c) else None
  }

  /** A source bitmap placed so that its pixel (srcX, srcY) falls on (dst.x, dst.y); pixels outside it paint nothing. */
  function BitmapPaint(r: Rect, dst: Rect, src: Picture, srcX: int, srcY: int): Paint
    requires src.Valid()
  {
    (x: int, y: int) =>
      var (sx, sy) := (srcX + (x - dst.x), srcY + (y - dst.y));
      if r.Has(x, y) && src.Inside(sx, sy) then Some(src.Get(sx, sy)) else None
  }

  /** Only pixels of `r` differ between the pictures. */
  ghost predicate ChangedWithin(p: Picture, q: Picture, r: Rect)
    requires p.Valid() && q.Valid()
  {
    SameSize(p, q) && forall x, y :: p.Inside(x, y) && p.Get(x, y) != q.Get(x, y) ==> r.Has(x, y)
  }

  lemma PaintedWithin(p: Picture, f: Paint, r: Rect)
    requires p.Valid()
    requires forall x, y :: f(x, y).Some? ==> r.Has(x, y)
    ensures ChangedWithin(p, Painted(p, f), r)
  {
    forall x, y | p.Inside(x, y)
      ensures f(x, y).None? ==> Painted(p, f).Get(x, y) == p.Get(x, y)
    {
      PaintedGet(p, f, x, y);
    }
  }
}
