/**
 Cached bitmaps: decoding of bottom-up tiles, the explicit cells and the waiting-list slot of the bitmap cache,
 and the secondary orders that fill the caches. Section 2.2.2.2.1.2 of MS-RDPEGDI.
 */
module Bitmaps {
  import opened Options
  import opened Arith
  import opened Bits
  import opened Pictures
  import opened Tables
  import opened Fields
  import opened Glyphs

  /** Interleaved RLE: data, width, height and bits per pixel to raw bytes, if it decompresses. */
  type RleCodec = (seq<byte>, nat, nat, nat) -> Option<seq<byte>>

  // ---- Pixel formats -------------------------------------------------------------------

  datatype ColorDepth = Bpp8 | Bpp15 | Bpp16 | Bpp24 | Bpp32

  function DepthOf(bpp: nat): Option<ColorDepth> {
    if bpp == 8 then Some(Bpp8) else if bpp == 15 then Some(Bpp15) else if bpp == 16 then Some(Bpp16)
    else if bpp == 24 then Some(Bpp24) else if bpp == 32 then Some(Bpp32) else None
  }

  function BitsPerPixel(depth: ColorDepth): nat {
    match depth case Bpp8 => 8 case Bpp15 => 15 case Bpp16 => 16 case Bpp24 => 24 case Bpp32 => 32
  }

  function BytesPerPixel(depth: ColorDepth): nat {
    match depth case Bpp8 => 1 case Bpp15 => 2 case Bpp16 => 2 case Bpp24 => 3 case Bpp32 => 4
  }

  /** Channel expansion: the shifted parts do not overlap, so the bitwise or is a sum. */
  function Expand5(v: nat): byte { (v % 32) * 8 + (v % 32) / 4 }

  function Expand6(v: nat): byte { (v % 64) * 4 + (v % 64) / 16 }

  /** One pixel at `i`; without a palette, 8-bit pixels are grey. */
  function PixelOf(depth: ColorDepth, raw: seq<byte>, i: nat): Rgba
    requires i + BytesPerPixel(depth) <= |raw|
  {
    match depth
    case Bpp8 => Rgba(raw[i], raw[i], raw[i], 255)
    case Bpp15 =>
      var p := raw[i] as int + 256 * (raw[i + 1] as int);
      Rgba(Expand5(p / 1024), Expand5(p / 32), Expand5(p), 255)
    case Bpp16 =>
      var p := raw[i] as int + 256 * (raw[i + 1] as int);
      Rgba(Expand5(p / 2048), Expand6(p / 32), Expand5(p), 255)
    case Bpp24 => Rgba(raw[i + 2], raw[i + 1], raw[i], 255)
    case Bpp32 => Rgba(raw[i + 2], raw[i + 1], raw[i], 255)
  }

  const MAX_DIM: nat := 4096

  /** Wire offset of the pixel that ends up at (x, y): rows are stored bottom-up. */
  function WireOffset(depth: ColorDepth, width: nat, height: nat, x: nat, y: nat): (o: nat)
    requires y < height
  {
    Times(height - 1 - y, Times(width, BytesPerPixel(depth))) + Times(x, BytesPerPixel(depth))
  }

  lemma WireOffsetInside(depth: ColorDepth, width: nat, height: nat, x: nat, y: nat)
    requires x < width && y < height
    ensures WireOffset(depth, width, height, x, y) + BytesPerPixel(depth) <= width * BytesPerPixel(depth) * height
  {
    var b := BytesPerPixel(depth);
    var stride := width * b;
    MulLe(b, x + 1, width);
    MulSucc(b, x);
    MulLe(stride, height - 1 - y + 1, height);
    MulSucc(stride, height - 1 - y);
    Commute(b, x);
    Commute(b, width);
    Commute(stride, height - 1 - y);
  }

  lemma Commute(a: int, b: int)
    ensures a * b == b * a
  {
  }

  /** The pixels of a decoded tile. */
  ghost predicate Upright(depth: ColorDepth, raw: seq<byte>, p: Picture)
    requires p.Valid() && p.width * BytesPerPixel(depth) * p.height <= |raw|
  {
    forall x, y :: p.Inside(x, y) ==>
      WireOffset(depth, p.width, p.height, x, y) + BytesPerPixel(depth) <= |raw|
      && p.Get(x, y) == PixelOf(depth, raw, WireOffset(depth, p.width, p.height, x, y))
  }

  /** Raw bytes behind the optional compression; 32-bit tiles are taken raw. */
  function RawBits(data: seq<byte>, width: nat, height: nat, depth: ColorDepth, compressed: bool,
                   rle: RleCodec): Option<seq<byte>> {
    if compressed && depth != Bpp32 then rle(data, width, height, BitsPerPixel(depth)) else Some(data)
  }

  /** Tile as a picture value: every pixel opaque and upright. */
  function Tile(depth: ColorDepth, raw: seq<byte>, width: nat, height: nat): (p: Picture)
    requires 0 < width < 0x1_0000 && height < 0x1_0000 && width * BytesPerPixel(depth) * height <= |raw|
    ensures p.Valid() && p.width == width && p.height == height
  {
    Picture(width, height, seq(width * height * 4,
                               i requires 0 <= i < width * height * 4 => TileByte(depth, raw, width, height, i)))
  }

  function TileByte(depth: ColorDepth, raw: seq<byte>, width: nat, height: nat, i: nat): byte
    requires 0 < width && i < width * height * 4 && width * BytesPerPixel(depth) * height <= |raw|
  {
    var (x, y) := (i / 4 % width, i / 4 / width);
    RowOfByte(width, height, i);
    WireOffsetInside(depth, width, height, x, y);
    Channel(PixelOf(depth, raw, WireOffset(depth, width, height, x, y)), i % 4)
  }

  lemma RowOfByte(width: nat, height: nat, i: nat)
    requires 0 < width && i < width * height * 4
    ensures i / 4 / width < height
  {
    var p := i / 4;
    Euclid(p, width);
    if p / width >= height {
      MulLe(width, height, p / width);
    }
  }

  lemma TileUpright(depth: ColorDepth, raw: seq<byte>, width: nat, height: nat)
    requires 0 < width < 0x1_0000 && height < 0x1_0000 && width * BytesPerPixel(depth) * height <= |raw|
    ensures Upright(depth, raw, Tile(depth, raw, width, height))
  {
    hide Tile, WireOffset, PixelOf, BytesPerPixel;
    var p := Tile(depth, raw, width, height);
    forall x, y | p.Inside(x, y)
      ensures WireOffset(depth, width, height, x, y) + BytesPerPixel(depth) <= |raw|
      ensures p.Get(x, y) == PixelOf(depth, raw, WireOffset(depth, width, height, x, y))
    {
      TilePixel(depth, raw, width, height, x, y);
      PixelOpaque(depth, raw, WireOffset(depth, width, height, x, y));
    }
  }

  lemma PixelOpaque(depth: ColorDepth, raw: seq<byte>, i: nat)
    requires i + BytesPerPixel(depth) <= |raw|
    ensures Opaque(PixelOf(depth, raw, i)) == PixelOf(depth, raw, i)
  {
  }


  function DecodeBitmap(data: seq<byte>, width: nat, height: nat, depth: ColorDepth, compressed: bool,
                        rle: RleCodec): (r: Result<Picture>)
    ensures r.Ok? ==> r.value.Valid()
  {
    if width == 0 || height == 0 || width > MAX_DIM || height > MAX_DIM then
      Err(Malformed("bitmap dimensions out of range"))
    else
      var raw := RawBits(data, width, height, depth, compressed, rle);
      if raw.None? then Err(Malformed("RLE decompression failed"))
      else
        var needed := width * BytesPerPixel(depth) * height;
        if |raw.value| < needed then Err(UnexpectedEof(needed, |raw.value|))
        else Ok(Tile(depth, raw.value, width, height))
  }

  method DecodeTile(data: seq<byte>, width: nat, height: nat, depth: ColorDepth, compressed: bool, rle: RleCodec)
      returns (r: Result<Picture>)
    ensures r == DecodeBitmap(data, width, height, depth, compressed, rle)
  {
    hide PixelOf, Tile, RawBits;
    if width == 0 || height == 0 || width > MAX_DIM || height > MAX_DIM {
      return Err(Malformed("bitmap dimensions out of range"));
    }
    var bits := RawBits(data, width, height, depth, compressed, rle);
    if bits.None? {
      return Err(Malformed("RLE decompression failed"));
    }
    var raw := bits.value;
    var needed := width * BytesPerPixel(depth) * height;
    if |raw| < needed {
      return Err(UnexpectedEof(needed, |raw|));
    }
    ghost var tile := Tile(depth, raw, width, height);
    var rgba := new byte[width * height * 4](_ => 0);
    for row := 0 to height
      invariant 0 <= row * width * 4 <= rgba.Length && rgba[..row * width * 4] == tile.data[..row * width * 4]
    {
      RowStart(width, height, row);
      DecodeRow(rgba, raw, width, height, depth, row);
    }
    assert height * width * 4 == rgba.Length by { Commute(height, width); }
    assert rgba[..] == rgba[..rgba.Length] == tile.data;
    r := Ok(Picture(width, height, rgba[..]));
  }

  method DecodeRow(rgba: array<byte>, raw: seq<byte>, width: nat, height: nat, depth: ColorDepth, row: nat)
    requires 0 < width < 0x1_0000 && row < height < 0x1_0000 && rgba.Length == width * height * 4
    requires width * BytesPerPixel(depth) * height <= |raw|
    requires 0 <= row * width * 4 <= (row + 1) * width * 4 <= rgba.Length
    requires rgba[..row * width * 4] == Tile(depth, raw, width, height).data[..row * width * 4]
    modifies rgba
    ensures rgba[..(row + 1) * width * 4] == Tile(depth, raw, width, height).data[..(row + 1) * width * 4]
  {
    hide PixelOf, Tile, WireOffset;
    ghost var tile := Tile(depth, raw, width, height);
    RowStart(width, height, row);
    for x := 0 to width
      invariant (row * width + x) * 4 <= rgba.Length
      invariant forall i :: 0 <= i < (row * width + x) * 4 ==> rgba[i] == tile.data[i]
    {
      IndexInside(width, height, x, row);
      TilePixel(depth, raw, width, height, x, row);
      var c := PixelOf(depth, raw, WireOffset(depth, width, height, x, row));
      var o := Index(width, x, row);
      rgba[o] := c.r;
      rgba[o + 1] := c.g;
      rgba[o + 2] := c.b;
      rgba[o + 3] := 255;
    }
  }

  lemma RowStart(width: nat, height: nat, row: nat)
    requires row < height
    ensures (row * width + width) * 4 == (row + 1) * width * 4 <= width * height * 4
  {
    MulLe(width, row + 1, height);
    MulSucc(width, row);
    Commute(width, row);
    Commute(width, row + 1);
  }

  lemma TilePixel(depth: ColorDepth, raw: seq<byte>, width: nat, height: nat, x: nat, y: nat)
    requires x < width < 0x1_0000 && y < height < 0x1_0000 && width * BytesPerPixel(depth) * height <= |raw|
    ensures Index(width, x, y) + 4 <= width * height * 4
    ensures WireOffset(depth, width, height, x, y) + BytesPerPixel(depth) <= |raw|
    ensures var (p, o, c) := (Tile(depth, raw, width, height).data, Index(width, x, y),
                              PixelOf(depth, raw, WireOffset(depth, width, height, x, y)));
            p[o] == c.r && p[o + 1] == c.g && p[o + 2] == c.b && p[o + 3] == 255
  {
    hide WireOffset, PixelOf, BytesPerPixel;
    WireOffsetInside(depth, width, height, x, y);
    IndexInside(width, height, x, y);
    QuarterOf(y * width + x);
    DivMod(y, width, x);
  }

  // ---- The bitmap cache -----------------------------------------------------------------

  const WAITING_LIST_INDEX: nat := 0x7FFF

  /** Explicit cells, and one transient slot per cache id for bitmaps sent with the waiting-list index. */
  datatype BitmapTables = BitmapTables(cells: Table<Picture>, waiting: seq<Option<Picture>>) {
    function Get(id: nat, index: nat): Option<Picture> {
      if index == WAITING_LIST_INDEX then (if id < |waiting| then waiting[id] else None)
      else Lookup(cells, id, index)
    }

    function Insert(id: nat, index: nat, p: Picture): BitmapTables {
      this.(cells := Inserted(cells, id, index, p))
    }

    function InsertWaiting(id: nat, p: Picture): BitmapTables {
      this.(waiting := Grown(waiting, id + 1, None)[id := Some(p)])
    }

    ghost predicate Valid() {
      && (forall i, j :: 0 <= i < |cells| && 0 <= j < |cells[i]| && cells[i][j].Some? ==> cells[i][j].value.Valid())
      && forall i :: 0 <= i < |waiting| && waiting[i].Some? ==> waiting[i].value.Valid()
    }
  }

  lemma GetValid(b: BitmapTables, id: nat, index: nat)
    requires b.Valid()
    ensures b.Get(id, index).Some? ==> b.Get(id, index).value.Valid()
  {
  }

  lemma InsertValid(b: BitmapTables, id: nat, index: nat, p: Picture)
    requires b.Valid() && p.Valid()
    ensures b.Insert(id, index, p).Valid() && b.InsertWaiting(id, p).Valid()
  {
    var t := Grown(b.cells, id + 1, []);
    assert forall i :: 0 <= i < |b.cells| ==> t[i] == b.cells[i];
  }

  /** A waiting-list tile is found under 0x7FFF of its own cache id and alters no explicit cell; an explicit tile
      alters its own cell only. (A Rev1 order may name cell 0x7FFF: it is stored there and never found again.) */
  lemma WaitingListSeparate(b: BitmapTables, id: nat, index: nat, p: Picture, id2: nat, index2: nat)
    ensures b.InsertWaiting(id, p).Get(id2, index2)
            == if index2 == WAITING_LIST_INDEX && id2 == id then Some(p) else b.Get(id2, index2)
    ensures b.Insert(id, index, p).Get(id2, index2)
            == if index2 != WAITING_LIST_INDEX && (id2, index2) == (id, index) then Some(p) else b.Get(id2, index2)
  {
    LookupInserted(b.cells, id, index, p, id2, index2);
  }

  class BitmapCache {
    var tables: BitmapTables

    ghost predicate Valid()
      reads this
    {
      tables.Valid()
    }

    constructor ()
      ensures Valid() && tables == BitmapTables([], [])
    {
      tables := BitmapTables([], []);
    }

    method Insert(id: nat, index: nat, p: Picture)
      requires Valid() && p.Valid()
      modifies this
      ensures Valid() && tables == old(tables).Insert(id, index, p)
    {
      InsertValid(tables, id, index, p);
      tables := tables.Insert(id, index, p);
    }

    method InsertWaiting(id: nat, p: Picture)
      requires Valid() && p.Valid()
      modifies this
      ensures Valid() && tables == old(tables).InsertWaiting(id, p)
    {
      InsertValid(tables, id, 0, p);
      tables := tables.InsertWaiting(id, p);
    }
  }

  // ---- Secondary orders -------------------------------------------------------------------

  /** The one- or two-byte unsigned. */
  function Take2(d: seq<byte>, pos: nat): (r: Result<Taken<nat>>)
    requires pos <= |d|
    ensures r.Ok? ==> pos <= r.value.next <= |d| && r.value.v < 0x8000
  {
    var a :- TakeU8(d, pos);
    if a.v < 128 then Ok(Taken(a.v, a.next))
    else var b :- TakeU8(d, a.next); Ok(Taken((a.v as int - 128) * 256 + b.v, b.next))
  }

  /** Big-endian continuation bytes. */
  function TakeMore(d: seq<byte>, pos: nat, count: nat, val: nat): (r: Result<Taken<nat>>)
    requires pos <= |d|
    ensures r.Ok? ==> pos <= r.value.next <= |d|
    decreases count
  {
    if count == 0 then Ok(Taken(val, pos))
    else var b :- TakeU8(d, pos); TakeMore(d, b.next, count - 1, val * 256 + b.v)
  }

  /** The unsigned of one to four bytes: the top two bits of the first count the others. */
  function Take4(d: seq<byte>, pos: nat): (r: Result<Taken<nat>>)
    requires pos <= |d|
    ensures r.Ok? ==> pos <= r.value.next <= |d|
  {
    var a :- TakeU8(d, pos);
    TakeMore(d, a.next, a.v / 64, a.v % 64)
  }

  function Take2Code(v: nat): seq<byte>
    requires v < 0x8000
  {
    if v < 128 then [v] else [v / 256 + 128, v % 256]
  }

  lemma Take2RoundTrip(v: nat, d: seq<byte>, pos: nat)
    requires v < 0x8000 && pos + |Take2Code(v)| <= |d| && d[pos..pos + |Take2Code(v)|] == Take2Code(v)
    ensures Take2(d, pos) == Ok(Taken(v, pos + |Take2Code(v)|))
  {
    var c := Take2Code(v);
    assert d[pos] == d[pos..pos + |c|][0];
    if v >= 128 {
      assert d[pos + 1] == d[pos..pos + |c|][1];
    }
  }

  /** 256 to the n. */
  function Place(n: nat): (p: nat)
    requires n <= 3
    ensures p > 0
  {
    if n == 0 then 1 else if n == 1 then 0x100 else if n == 2 then 0x1_0000 else 0x100_0000
  }

  function MoreCode(v: nat, n: nat): (c: seq<byte>)
    requires n <= 3 && v < Place(n)
    ensures |c| == n
    decreases n
  {
    if n == 0 then [] else [v / Place(n - 1)] + MoreCode(v % Place(n - 1), n - 1)
  }

  /** An encoder may spend any number of further bytes that the value fits in. */
  function Take4Code(v: nat, n: nat): (c: seq<byte>)
    requires n <= 3 && v < 64 * Place(n)
    ensures |c| == n + 1
  {
    [64 * n + v / Place(n)] + MoreCode(v % Place(n), n)
  }

  lemma {:induction false} MoreRoundTrip(v: nat, n: nat, high: nat, d: seq<byte>, pos: nat)
    requires n <= 3 && v < Place(n) && pos + n <= |d| && d[pos..pos + n] == MoreCode(v, n)
    ensures TakeMore(d, pos, n, high) == Ok(Taken(high * Place(n) + v, pos + n))
    decreases n
  {
    if n > 0 {
      var c := MoreCode(v, n);
      assert d[pos] == d[pos..pos + n][0] == c[0];
      assert d[pos + 1..pos + n] == d[pos..pos + n][1..] == c[1..];
      MoreRoundTrip(v % Place(n - 1), n - 1, high * 256 + v / Place(n - 1), d, pos + 1);
    }
  }

  lemma Take4RoundTrip(v: nat, n: nat, d: seq<byte>, pos: nat)
    requires n <= 3 && v < 64 * Place(n)
    requires pos + n + 1 <= |d| && d[pos..pos + n + 1] == Take4Code(v, n)
    ensures Take4(d, pos) == Ok(Taken(v, pos + n + 1))
  {
    hide MoreCode, TakeMore;
    var c := Take4Code(v, n);
    assert d[pos] == d[pos..pos + n + 1][0] == c[0];
    assert d[pos + 1..pos + n + 1] == d[pos..pos + n + 1][1..] == c[1..];
    assert d[pos] / 64 == n && d[pos] % 64 == v / Place(n);
    MoreRoundTrip(v % Place(n), n, v / Place(n), d, pos + 1);
  }

  /** Optional compression header: the main body size replaces the declared length. */
  function TakeBodySize(present: bool, declared: nat, d: seq<byte>, pos: nat): (r: Result<Taken<nat>>)
    requires pos <= |d|
    ensures r.Ok? ==> pos <= r.value.next <= |d|
  {
    if !present then Ok(Taken(declared, pos))
    else
      var first :- TakeU16(d, pos);
      var body :- TakeU16(d, first.next);
      var scan :- TakeU16(d, body.next);
      var whole :- TakeU16(d, scan.next);
      Ok(Taken(body.v, whole.next))
  }

  /** A cache-bitmap order up to its pixels. */
  datatype TileHeader = TileHeader(id: nat, index: nat, waiting: bool, width: nat, height: nat, depth: ColorDepth,
                                   data: seq<byte>)

  function Rev1Header(extraFlags: nat, d: seq<byte>, compressed: bool): Result<TileHeader> {
    var id :- TakeU8(d, 0);
    var pad :- TakeU8(d, id.next);
    var width :- TakeU8(d, pad.next);
    var height :- TakeU8(d, width.next);
    var bpp :- TakeU8(d, height.next);
    var length :- TakeU16(d, bpp.next);
    var index :- TakeU16(d, length.next);
    if DepthOf(bpp.v).None? then Err(Malformed("bad cache bitmap bpp"))
    else
      var size :- TakeBodySize(compressed && extraFlags / 0x0400 % 2 == 0, length.v, d, index.next);
      var data :- TakeBytes(d, size.next, size.v);
      Ok(TileHeader(id.v, index.v, false, width.v, height.v, DepthOf(bpp.v).value, data.v))
  }

  /** Depth of a Rev2 tile: from its id, or, uncompressed, from the byte count. */
  function Rev2Bpp(bppId: nat, compressed: bool, length: nat, width: nat, height: nat): nat {
    if bppId == 3 then 8 else if bppId == 4 then 16 else if bppId == 5 then 24 else if bppId == 6 then 32
    else if !compressed && width * height > 0 then length * 8 / (width * height) % 0x1_0000
    else 16
  }

  function Rev2Header(extraFlags: nat, d: seq<byte>, compressed: bool): Result<TileHeader> {
    var (id, bppId, flags) := (extraFlags % 8, extraFlags / 8 % 8, extraFlags / 128);
    var key :- TakeBytes(d, 0, if flags / 2 % 2 == 1 then 8 else 0);
    var width :- Take2(d, key.next);
    var height :- if flags % 2 == 1 then Ok(width) else Take2(d, width.next);
    var length :- Take4(d, height.next);
    var index :- Take2(d, length.next);
    var size :- TakeBodySize(compressed && flags / 8 % 2 == 0, length.v, d, index.next);
    var depth := DepthOf(Rev2Bpp(bppId, compressed, size.v, width.v, height.v));
    if depth.None? then Err(Malformed("bad CBR2 bpp"))
    else
      var n := if size.v <= |d| - size.next then size.v else |d| - size.next;
      Ok(TileHeader(id, index.v, index.v == WAITING_LIST_INDEX, width.v, height.v, depth.value,
                    d[size.next..size.next + n]))
  }

  /** One glyph of a glyph order: rows padded to bytes, the whole to four bytes, cut at the payload's end. */
  function TakeGlyph(d: seq<byte>, pos: nat): (r: Result<Taken<(nat, Glyph)>>)
    requires pos <= |d|
    ensures r.Ok? ==> pos <= r.value.next <= |d|
  {
    var index :- TakeU16(d, pos);
    var x :- TakeU16(d, index.next);
    var y :- TakeU16(d, x.next);
    var cx :- TakeU16(d, y.next);
    var cy :- TakeU16(d, cx.next);
    var bytes := Times(RowBytes(cx.v), cy.v);
    var padded := if bytes % 4 == 0 then bytes else bytes + (4 - bytes % 4);
    var n := if padded <= |d| - cy.next then padded else |d| - cy.next;
    Ok(Taken((index.v, Glyph(Signed(x.v, 0x8000), Signed(y.v, 0x8000), cx.v, cy.v, d[cy.next..cy.next + n])),
             cy.next + n))
  }

  /** Glyphs are inserted one by one; an error keeps those before it. */
  function InsertGlyphs(t: GlyphTable, id: nat, d: seq<byte>, pos: nat, count: nat): GlyphTable
    requires pos <= |d|
    decreases count
  {
    if count == 0 then t
    else
      var g := TakeGlyph(d, pos);
      if g.Err? then t else InsertGlyphs(Inserted(t, id, g.value.v.0, g.value.v.1), id, d, g.value.next, count - 1)
  }

  datatype Caches = Caches(bitmaps: BitmapTables, glyphs: GlyphTable)

  /** What a secondary order does to the caches; a failing one changes nothing but glyphs already inserted. */
  function ApplySecondary(c: Caches, orderType: byte, extraFlags: nat, d: seq<byte>, rle: RleCodec): Caches {
    if orderType in {0x00, 0x02} then StoreTile(c, Rev1Header(extraFlags, d, orderType == 0x02), orderType == 0x02, rle)
    else if orderType in {0x04, 0x05} then
      StoreTile(c, Rev2Header(extraFlags, d, orderType == 0x05), orderType == 0x05, rle)
    else if orderType == 0x03 then
      if |d| < 2 then c else c.(glyphs := InsertGlyphs(c.glyphs, d[0], d, 2, d[1]))
    else c
  }

  function StoreTile(c: Caches, h: Result<TileHeader>, compressed: bool, rle: RleCodec): Caches {
    if h.Err? then c
    else
      var t := DecodeBitmap(h.value.data, h.value.width, h.value.height, h.value.depth, compressed, rle);
      if t.Err? then c
      else if h.value.waiting then c.(bitmaps := c.bitmaps.InsertWaiting(h.value.id, t.value))
      else c.(bitmaps := c.bitmaps.Insert(h.value.id, h.value.index, t.value))
  }

  lemma ApplyValid(c: Caches, orderType: byte, extraFlags: nat, d: seq<byte>, rle: RleCodec)
    requires c.bitmaps.Valid()
    ensures ApplySecondary(c, orderType, extraFlags, d, rle).bitmaps.Valid()
  {
    hide Rev1Header, Rev2Header, DecodeBitmap, InsertGlyphs;
    forall id, index, p: Picture | p.Valid()
      ensures c.bitmaps.Insert(id, index, p).Valid() && c.bitmaps.InsertWaiting(id, p).Valid()
    {
      InsertValid(c.bitmaps, id, index, p);
    }
  }

  method ApplyTo(bitmaps: BitmapCache, glyphs: GlyphCache, orderType: byte, extraFlags: nat, d: seq<byte>,
                 rle: RleCodec)
    requires bitmaps.Valid()
    modifies bitmaps, glyphs`glyphs
    ensures bitmaps.Valid()
    ensures Caches(bitmaps.tables, glyphs.glyphs)
            == ApplySecondary(Caches(old(bitmaps.tables), old(glyphs.glyphs)), orderType, extraFlags, d, rle)
  {
    hide Rev1Header, Rev2Header, DecodeBitmap, InsertGlyphs;
    if orderType in {0x00, 0x02, 0x04, 0x05} {
      var compressed := orderType in {0x02, 0x05};
      var h := if orderType in {0x00, 0x02} then Rev1Header(extraFlags, d, compressed)
               else Rev2Header(extraFlags, d, compressed);
      if h.Ok? {
        var t := DecodeTile(h.value.data, h.value.width, h.value.height, h.value.depth, compressed, rle);
        if t.Ok? {
          if h.value.waiting {
            bitmaps.InsertWaiting(h.value.id, t.value);
          } else {
            bitmaps.Insert(h.value.id, h.value.index, t.value);
          }
        }
      }
    } else if orderType == 0x03 && |d| >= 2 {
      InsertAll(glyphs, d[0], d, d[1]);
    }
  }

  method InsertAll(glyphs: GlyphCache, id: nat, d: seq<byte>, count: nat)
    requires |d| >= 2
    modifies glyphs`glyphs
    ensures glyphs.glyphs == InsertGlyphs(old(glyphs.glyphs), id, d, 2, count)
  {
    hide TakeGlyph, Inserted;
    var pos, left := 2, count;
    while left > 0
      invariant 0 <= left && 2 <= pos <= |d|
      invariant InsertGlyphs(glyphs.glyphs, id, d, pos, left) == InsertGlyphs(old(glyphs.glyphs), id, d, 2, count)
    {
      var g := TakeGlyph(d, pos);
      if g.Err? {
        break;
      }
      glyphs.Insert(id, g.value.v.0, g.value.v.1);
      pos := g.value.next;
      left := left - 1;
    }
  }
}
