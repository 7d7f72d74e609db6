/**
 An encoder of the secondary orders that fill the caches, Rev1 and Rev2 bitmaps and glyphs, and what the caches hold
 after them: the tile or glyph that was sent, in the cell it was sent to. Section 2.2.2.2.1.2 of MS-RDPEGDI.
 */
module CacheOrders {
  import opened Arith
  import opened Options
  import opened Bits
  import opened Rects
  import opened Pictures
  import opened Tables
  import opened Glyphs
  import opened Fields
  import opened Orders
  import opened Bitmaps
  import opened Render
  import opened Processor

  // ---- Bitmaps ------------------------------------------------------------------------------

  /** The compression header; its main body size is that of the data. */
  datatype BodyHeader = BodyHeader(firstRow: nat, scanWidth: nat, whole: nat)

  /** Bits per pixel on the wire. */
  function Bpp(depth: ColorDepth): byte {
    match depth case Bpp8 => 8 case Bpp15 => 15 case Bpp16 => 16 case Bpp24 => 24 case Bpp32 => 32
  }

  /** Bytes of `n` pixels. */
  function Extent(depth: ColorDepth, n: nat): nat {
    match depth case Bpp8 => n case Bpp15 => 2 * n case Bpp16 => 2 * n case Bpp24 => 3 * n case Bpp32 => 4 * n
  }

  datatype Pixels = Pixels(width: nat, height: nat, depth: ColorDepth, data: seq<byte>)

  /** A bitmap order: flags, the length it declares, and the compression header before its data, if any; `lengthBytes`
      are spent on a Rev2 length beyond the first. */
  datatype SentTile =
    | Rev1(id: byte, index: nat, pixels: Pixels, pad: byte, extra: nat, declared: nat, header: Option<BodyHeader>,
           compressed: bool)
    | Rev2(id: byte, index: nat, pixels: Pixels, key: seq<byte>, extra: nat, declared: nat, lengthBytes: nat,
           header: Option<BodyHeader>, compressed: bool)

  function TypeOf(s: SentTile): byte {
    match s
    case Rev1(_, _, _, _, _, _, _, compressed) => if compressed then 0x02 else 0x00
    case Rev2(_, _, _, _, _, _, _, _, compressed) => if compressed then 0x05 else 0x04
  }

  predicate HeaderFits(h: Option<BodyHeader>, declared: nat, data: seq<byte>) {
    HeaderOk(h, data) && (h.None? ==> declared == |data|)
  }

  predicate HeaderOk(h: Option<BodyHeader>, data: seq<byte>) {
    h.Some? ==>
      h.value.firstRow < 0x1_0000 && h.value.scanWidth < 0x1_0000 && h.value.whole < 0x1_0000 && |data| < 0x1_0000
  }

  function HeaderCode(h: Option<BodyHeader>, data: seq<byte>): seq<byte>
    requires HeaderOk(h, data)
  {
    if h.None? then [] else Le16(h.value.firstRow) + Le16(|data|) + Le16(h.value.scanWidth) + Le16(h.value.whole)
  }

  /** Field ranges; and the flags tell of the compression header. */
  predicate Rev1Sendable(s: SentTile) {
    && s.Rev1?
    && s.index < 0x1_0000 && s.pixels.width < 256 && s.pixels.height < 256 && s.declared < 0x1_0000
    && HeaderFits(s.header, s.declared, s.pixels.data)
    && (s.header.Some? <==> s.compressed && s.extra / 0x0400 % 2 == 0)
  }

  function Rev1Code(s: SentTile): seq<byte>
    requires Rev1Sendable(s)
  {
    [s.id] + [s.pad] + [s.pixels.width] + [s.pixels.height] + [Bpp(s.pixels.depth)] + Le16(s.declared)
        + Le16(s.index)
    + HeaderCode(s.header, s.pixels.data) + s.pixels.data
  }

  lemma HeaderRead(h: Option<BodyHeader>, declared: nat, data: seq<byte>, d: seq<byte>, pos: nat)
    requires pos <= |d| && HeaderFits(h, declared, data) && Stands(d, pos, HeaderCode(h, data))
    ensures TakeBodySize(h.Some?, declared, d, pos) == Ok(Taken(|data|, pos + |HeaderCode(h, data)|))
  {
    hide Stands, Le16;
    if h.Some? {
      var b := h.value;
      StandsSplit(d, pos, Le16(b.firstRow) + Le16(|data|) + Le16(b.scanWidth), Le16(b.whole));
      StandsSplit(d, pos, Le16(b.firstRow) + Le16(|data|), Le16(b.scanWidth));
      StandsSplit(d, pos, Le16(b.firstRow), Le16(|data|));
      StandsWord(d, pos, b.firstRow);
      StandsWord(d, pos + 2, |data|);
      StandsWord(d, pos + 4, b.scanWidth);
      StandsWord(d, pos + 6, b.whole);
    }
  }

  lemma DepthRead(depth: ColorDepth)
    ensures DepthOf(Bpp(depth)) == Some(depth) && Bpp(depth) as nat == BitsPerPixel(depth)
  {
  }

  /** The header of a Rev1 order is read back as sent, whatever follows it. */
  lemma Rev1RoundTrip(s: SentTile, d: seq<byte>)
    requires Rev1Sendable(s) && Stands(d, 0, Rev1Code(s))
    ensures Rev1Header(s.extra, d, s.compressed)
            == Ok(TileHeader(s.id, s.index, false, s.pixels.width, s.pixels.height, s.pixels.depth, s.pixels.data))
  {
    hide Stands, Le16, HeaderCode, HeaderOk, TakeBodySize, Bpp, DepthOf;
    var p, h := s.pixels, HeaderCode(s.header, s.pixels.data);
    DepthRead(p.depth);
    var bpp := Bpp(p.depth);
    var a := [s.id] + [s.pad] + [p.width as byte] + [p.height as byte];
    StandsSplit(d, 0, a + [bpp] + Le16(s.declared) + Le16(s.index) + h, p.data);
    StandsSplit(d, 0, a + [bpp] + Le16(s.declared) + Le16(s.index), h);
    StandsSplit(d, 0, a + [bpp] + Le16(s.declared), Le16(s.index));
    StandsSplit(d, 0, a + [bpp], Le16(s.declared));
    StandsSplit(d, 0, a, [bpp]);
    FourBytes(d, s.id, s.pad, p.width, p.height);
    StandsByte(d, 4, bpp);
    StandsWord(d, 5, s.declared);
    StandsWord(d, 7, s.index);
    StandsInside(d, 9, h);
    HeaderRead(s.header, s.declared, p.data, d, 9);
    StandsWhole(d, 9 + |h|, p.data);
  }

  lemma FourBytes(d: seq<byte>, a: byte, b: byte, c: byte, e: byte)
    requires Stands(d, 0, [a] + [b] + [c] + [e])
    ensures TakeU8(d, 0) == Ok(Taken(a, 1)) && |d| >= 4 && TakeU8(d, 1) == Ok(Taken(b, 2))
    ensures TakeU8(d, 2) == Ok(Taken(c, 3)) && TakeU8(d, 3) == Ok(Taken(e, 4))
  {
    assert d[0..4] == [a] + [b] + [c] + [e];
    assert d[0] == d[0..4][0] && d[1] == d[0..4][1] && d[2] == d[0..4][2] && d[3] == d[0..4][3];
  }

  lemma StandsInside(d: seq<byte>, pos: nat, c: seq<byte>)
    requires Stands(d, pos, c)
    ensures pos + |c| <= |d|
  {
  }

  /** Depth ids 3 to 6 name the depth; any other leaves it to be derived. */
  function DepthId(extra: nat): nat { extra / 8 % 8 }

  predicate Rev2Sendable(s: SentTile) {
    && s.Rev2?
    && s.extra % 8 == s.id && s.index < 0x8000 && s.pixels.width < 0x8000 && s.pixels.height < 0x8000
    && (s.extra / 128 % 2 == 1 ==> s.pixels.height == s.pixels.width)
    && |s.key| == (if s.extra / 128 / 2 % 2 == 1 then 8 else 0)
    && s.lengthBytes <= 3 && s.declared < 64 * Place(s.lengthBytes)
    && HeaderFits(s.header, s.declared, s.pixels.data)
    && (s.header.Some? <==> s.compressed && s.extra / 128 / 8 % 2 == 0)
  }

  function Rev2Code(s: SentTile): seq<byte>
    requires Rev2Sendable(s)
  {
    s.key + Take2Code(s.pixels.width) + (if s.extra / 128 % 2 == 1 then [] else Take2Code(s.pixels.height))
    + Take4Code(s.declared, s.lengthBytes) + Take2Code(s.index) + HeaderCode(s.header, s.pixels.data) + s.pixels.data
  }

  /** The depth the decoder works with. */
  function DecodedDepth(s: SentTile): Option<ColorDepth>
    requires s.Rev2?
  {
    DepthOf(Rev2Bpp(DepthId(s.extra), s.compressed, |s.pixels.data|, s.pixels.width, s.pixels.height))
  }

  lemma Standing2(d: seq<byte>, pos: nat, v: nat)
    requires v < 0x8000 && Stands(d, pos, Take2Code(v))
    ensures pos + |Take2Code(v)| <= |d| && Take2(d, pos) == Ok(Taken(v, pos + |Take2Code(v)|))
  {
    Take2RoundTrip(v, d, pos);
  }

  lemma Standing4(d: seq<byte>, pos: nat, v: nat, n: nat)
    requires n <= 3 && v < 64 * Place(n) && Stands(d, pos, Take4Code(v, n))
    ensures pos + n + 1 <= |d| && Take4(d, pos) == Ok(Taken(v, pos + n + 1))
  {
    Take4RoundTrip(v, n, d, pos);
  }

  lemma SevenStand(d: seq<byte>, a: seq<byte>, b: seq<byte>, c: seq<byte>, e: seq<byte>, f: seq<byte>, g: seq<byte>,
                   h: seq<byte>)
    requires Stands(d, 0, a + b + c + e + f + g + h)
    ensures Stands(d, 0, a) && Stands(d, |a|, b) && Stands(d, |a| + |b|, c) && Stands(d, |a| + |b| + |c|, e)
    ensures Stands(d, |a| + |b| + |c| + |e|, f) && Stands(d, |a| + |b| + |c| + |e| + |f|, g)
    ensures Stands(d, |a| + |b| + |c| + |e| + |f| + |g|, h)
  {
    hide Stands;
    StandsSplit(d, 0, a + b + c + e + f + g, h);
    StandsSplit(d, 0, a + b + c + e + f, g);
    StandsSplit(d, 0, a + b + c + e, f);
    StandsSplit(d, 0, a + b + c, e);
    StandsSplit(d, 0, a + b, c);
    StandsSplit(d, 0, a, b);
  }

  /** Where the parts of a Rev2 order stand, and what is read there. */
  lemma Rev2Parts(s: SentTile, d: seq<byte>)
    requires Rev2Sendable(s) && Stands(d, 0, Rev2Code(s))
    ensures var (p, k) := (s.pixels, |s.key|);
            var (same, w) := (s.extra / 128 % 2 == 1, k + |Take2Code(p.width)|);
            var t := if same then w else w + |Take2Code(p.height)|;
            var l := t + s.lengthBytes + 1;
            var i := l + |Take2Code(s.index)|;
            var h := i + |HeaderCode(s.header, p.data)|;
            && h + |p.data| <= |d|
            && TakeBytes(d, 0, k) == Ok(Taken(s.key, k)) && Take2(d, k) == Ok(Taken(p.width, w))
            && (!same ==> Take2(d, w) == Ok(Taken(p.height, t)))
            && Take4(d, t) == Ok(Taken(s.declared, l)) && Take2(d, l) == Ok(Taken(s.index, i))
            && TakeBodySize(s.header.Some?, s.declared, d, i) == Ok(Taken(|p.data|, h)) && d[h..h + |p.data|] == p.data
  {
    hide Take2Code, Take4Code, Take2, Take4, HeaderCode, HeaderOk, TakeBodySize, Stands;
    var p, h := s.pixels, HeaderCode(s.header, s.pixels.data);
    var w, l, i := Take2Code(p.width), Take4Code(s.declared, s.lengthBytes), Take2Code(s.index);
    var t := if s.extra / 128 % 2 == 1 then [] else Take2Code(p.height);
    SevenStand(d, s.key, w, t, l, i, h, p.data);
    var k := |s.key|;
    StandsWhole(d, 0, s.key);
    Standing2(d, k, p.width);
    if s.extra / 128 % 2 == 0 {
      Standing2(d, k + |w|, p.height);
    }
    Standing4(d, k + |w| + |t|, s.declared, s.lengthBytes);
    Standing2(d, k + |w| + |t| + |l|, s.index);
    var at := k + |w| + |t| + |l| + |i|;
    StandsInside(d, at, h);
    HeaderRead(s.header, s.declared, p.data, d, at);
    StandsWhole(d, at + |h|, p.data);
  }

  /** The header of a Rev2 order is read back as sent, at the decoder's depth. */
  lemma Rev2RoundTrip(s: SentTile, d: seq<byte>)
    requires Rev2Sendable(s) && Stands(d, 0, Rev2Code(s))
    ensures Rev2Header(s.extra, d, s.compressed)
            == if DecodedDepth(s).None? then Err(Malformed("bad CBR2 bpp"))
               else Ok(TileHeader(s.id, s.index, s.index == WAITING_LIST_INDEX, s.pixels.width, s.pixels.height,
                                  DecodedDepth(s).value, s.pixels.data))
  {
    hide Stands, Take2Code, Take4Code, Take2, Take4, HeaderCode, HeaderOk, TakeBodySize, DepthOf, Rev2Bpp, Rev2Code;
    Rev2Parts(s, d);
  }

  /** When the depth id does not name the depth, the decoder's depth is the sender's exactly if, for a compressed tile,
      it is 16 bits; and for a raw one, the data holds that many bits a pixel and not one more. */
  lemma DerivedDepthIff(s: SentTile)
    requires s.Rev2? && DepthId(s.extra) !in {3, 4, 5, 6} && s.pixels.width > 0 && s.pixels.height > 0
    requires 8 * |s.pixels.data| < 0x1_0000 * (s.pixels.width * s.pixels.height)
    ensures var (n, bits) := (s.pixels.width * s.pixels.height, Bpp(s.pixels.depth));
            DecodedDepth(s) == Some(s.pixels.depth)
            <==> if s.compressed then s.pixels.depth == Bpp16 else bits * n <= 8 * |s.pixels.data| < (bits + 1) * n
  {
    hide DepthOf, Bpp, BitsPerPixel;
    var n := Times(s.pixels.width, s.pixels.height);
    DepthRead(s.pixels.depth);
    if s.compressed {
      DepthRead(Bpp16);
      DepthInjective(Bpp(Bpp16), s.pixels.depth);
      SixteenBits();
    } else {
      MulPositive(s.pixels.width, s.pixels.height);
      QuotientIs(8 * |s.pixels.data|, n, BitsPerPixel(s.pixels.depth));
      QuotientBelow(8 * |s.pixels.data|, n);
      DepthInjective(8 * |s.pixels.data| / n, s.pixels.depth);
    }
  }

  lemma SixteenBits()
    ensures forall depth :: Bpp(depth) == 16 <==> depth == Bpp16
  {
  }

  lemma MulPositive(a: nat, b: nat)
    requires a > 0 && b > 0
    ensures a * b > 0
  {
  }

  lemma QuotientIs(x: nat, n: nat, q: nat)
    requires n > 0
    ensures x / n == q <==> q * n <= x < (q + 1) * n
  {
    Euclid(x, n);
    var r := x % n;
    assert (q + 1) * n == n * q + n && q * n == n * q;
    if q * n <= x < (q + 1) * n {
      QuotientUnique(n, x / n, r, q, x - n * q);
    }
  }

  lemma QuotientBelow(x: nat, n: nat)
    requires n > 0 && x < 0x1_0000 * n
    ensures 0 <= x / n < 0x1_0000
  {
    Euclid(x, n);
    if x / n >= 0x1_0000 {
      MulLe(n, 0x1_0000, x / n);
    }
  }

  lemma DepthInjective(bpp: nat, depth: ColorDepth)
    ensures DepthOf(bpp) == Some(depth) <==> bpp == BitsPerPixel(depth)
  {
  }

  lemma ExtentIs(depth: ColorDepth, n: nat)
    ensures Extent(depth, n) == n * BytesPerPixel(depth)
  {
  }

  /** Without padding the only depth a raw tile loses is 15 bits, which is taken for 16. */
  lemma ExactDataDepthIff(s: SentTile)
    requires s.Rev2? && DepthId(s.extra) !in {3, 4, 5, 6} && s.pixels.width > 0 && s.pixels.height > 0 && !s.compressed
    requires |s.pixels.data| == Extent(s.pixels.depth, s.pixels.width * s.pixels.height)
    ensures DecodedDepth(s) == Some(s.pixels.depth) <==> s.pixels.depth != Bpp15
    ensures s.pixels.depth == Bpp15 ==> DecodedDepth(s) == Some(Bpp16)
  {
    var n := Times(s.pixels.width, s.pixels.height);
    var b := BytesPerPixel(s.pixels.depth);
    MulPositive(s.pixels.width, s.pixels.height);
    ExtentIs(s.pixels.depth, n);
    assert 8 * |s.pixels.data| == (8 * b) * n;
    QuotientIs((8 * b) * n, n, 8 * b);
    MulSucc(n, 8 * b);
  }

  predicate TileSendable(s: SentTile) { Rev1Sendable(s) || Rev2Sendable(s) }

  function TileCode(s: SentTile): seq<byte>
    requires TileSendable(s)
  {
    if s.Rev1? then Rev1Code(s) else Rev2Code(s)
  }

  /** The order tells its depth: in a Rev2 order by depth id, or by the byte count of a raw tile, or as 16 bits. */
  predicate DepthTold(s: SentTile) {
    s.Rev2? ==>
      var (depth, id, n) := (s.pixels.depth, s.extra / 8 % 8, s.pixels.width * s.pixels.height);
      if id == 3 then depth == Bpp8
      else if id == 4 then depth == Bpp16
      else if id == 5 then depth == Bpp24
      else if id == 6 then depth == Bpp32
      else if s.compressed || n == 0 then depth == Bpp16
      else Bpp(depth) as nat * n <= 8 * |s.pixels.data| < (Bpp(depth) as nat + 1) * n
  }

  lemma DepthToldIsRead(s: SentTile)
    requires s.Rev2? && DepthTold(s)
    ensures DecodedDepth(s) == Some(s.pixels.depth)
  {
    var n := s.pixels.width * s.pixels.height;
    DepthRead(s.pixels.depth);
    if DepthId(s.extra) !in {3, 4, 5, 6} && !s.compressed && n > 0 {
      QuotientIs(8 * |s.pixels.data|, n, Bpp(s.pixels.depth));
    }
  }

  /** The tile's bytes: those of the data, or what the codec makes of them. Tiles of 32 bits are never compressed. */
  function Delivered(s: SentTile, rle: RleCodec): Option<seq<byte>> {
    var p := s.pixels;
    if !s.compressed then Some(p.data)
    else match p.depth
      case Bpp8 => rle(p.data, p.width, p.height, 8)
      case Bpp15 => rle(p.data, p.width, p.height, 15)
      case Bpp16 => rle(p.data, p.width, p.height, 16)
      case Bpp24 => rle(p.data, p.width, p.height, 24)
      case Bpp32 => Some(p.data)
  }

  /** The tile is of a size that is stored, and its bytes are there. */
  predicate Arrives(s: SentTile, raw: seq<byte>, rle: RleCodec) {
    && 0 < s.pixels.width <= 4096 && 0 < s.pixels.height <= 4096
    && Delivered(s, rle) == Some(raw)
    && Extent(s.pixels.depth, s.pixels.width * s.pixels.height) <= |raw|
  }

  /** The place the tile is found at: a waiting-list index means the waiting slot in a Rev2 order only. */
  predicate Holds(s: SentTile, id: nat, index: nat) {
    id == s.id && index == s.index && (s.Rev1? ==> index != 0x7FFF)
  }

  lemma StrideIs(depth: ColorDepth, width: nat, height: nat)
    ensures width * BytesPerPixel(depth) * height == Extent(depth, width * height)
  {
    ExtentIs(depth, width * height);
    Commute(width * BytesPerPixel(depth), height);
    Commute(width, height);
    Assoc(height, width, BytesPerPixel(depth));
  }

  function SentPicture(s: SentTile, raw: seq<byte>, rle: RleCodec): (p: Picture)
    requires Arrives(s, raw, rle)
    ensures p.Valid() && p.width == s.pixels.width && p.height == s.pixels.height
  {
    StrideIs(s.pixels.depth, s.pixels.width, s.pixels.height);
    Tile(s.pixels.depth, raw, s.pixels.width, s.pixels.height)
  }

  /** What the decoder makes of the tile: the sender's picture, or nothing. */
  lemma TileDecoded(s: SentTile, rle: RleCodec)
    ensures var p := s.pixels;
            var r := DecodeBitmap(p.data, p.width, p.height, p.depth, s.compressed, rle);
            var d := Delivered(s, rle);
            if d.Some? && Arrives(s, d.value, rle) then r == Ok(SentPicture(s, d.value, rle)) else r.Err?
  {
    hide Tile, Extent;
    StrideIs(s.pixels.depth, s.pixels.width, s.pixels.height);
  }

  /** A bitmap order does nothing but store what is decoded from the tile that was sent. */
  lemma TileApplied(c: Caches, s: SentTile, d: seq<byte>, rle: RleCodec)
    requires TileSendable(s) && Stands(d, 0, TileCode(s)) && DepthTold(s)
    ensures var p := s.pixels;
            var t := DecodeBitmap(p.data, p.width, p.height, p.depth, s.compressed, rle);
            ApplySecondary(c, TypeOf(s), s.extra, d, rle)
            == if t.Err? then c
               else if s.Rev2? && s.index == 0x7FFF then c.(bitmaps := c.bitmaps.InsertWaiting(s.id, t.value))
               else c.(bitmaps := c.bitmaps.Insert(s.id, s.index, t.value))
  {
    hide Stands, Rev1Code, Rev2Code, Rev1Header, Rev2Header, DecodeBitmap, BitmapTables.Insert,
         BitmapTables.InsertWaiting, DepthTold, DepthOf, Rev2Bpp;
    if s.Rev1? {
      Rev1RoundTrip(s, d);
    } else {
      Rev2RoundTrip(s, d);
      DepthToldIsRead(s);
    }
  }

  /** After a bitmap order the tile that was sent is in its cell or waiting slot, and every other place is unchanged. */
  lemma TileStored(c: Caches, s: SentTile, d: seq<byte>, raw: seq<byte>, rle: RleCodec, id: nat, index: nat)
    requires TileSendable(s) && Stands(d, 0, TileCode(s)) && DepthTold(s) && Arrives(s, raw, rle)
    ensures var r := ApplySecondary(c, TypeOf(s), s.extra, d, rle);
            && r.glyphs == c.glyphs
            && r.bitmaps.Get(id, index) == if Holds(s, id, index) then Some(SentPicture(s, raw, rle))
                else c.bitmaps.Get(id, index)
  {
    hide Stands, TileCode, ApplySecondary, DecodeBitmap, BitmapTables.Get, BitmapTables.Insert,
         BitmapTables.InsertWaiting, DepthTold, SentPicture, TileSendable;
    TileApplied(c, s, d, rle);
    TileDecoded(s, rle);
    WaitingListSeparate(c.bitmaps, s.id, s.index, SentPicture(s, raw, rle), id, index);
  }

  /** A tile that the codec does not decompress, of a size that is not stored or with too few bytes leaves every cell
      as it was. */
  lemma TileDropped(c: Caches, s: SentTile, d: seq<byte>, rle: RleCodec)
    requires TileSendable(s) && Stands(d, 0, TileCode(s)) && DepthTold(s)
    requires forall raw: seq<byte> :: !Arrives(s, raw, rle)
    ensures ApplySecondary(c, TypeOf(s), s.extra, d, rle) == c
  {
    hide Stands, TileCode, ApplySecondary, DecodeBitmap, Arrives, Delivered, TileSendable, DepthTold;
    TileApplied(c, s, d, rle);
    TileDecoded(s, rle);
  }

  /** Where pixel (x, y) of the picture begins: rows are sent from the bottom. */
  function PixelStart(p: Pixels, x: nat, y: nat): nat
    requires y < p.height
  {
    Extent(p.depth, (p.height - 1 - y) * p.width + x)
  }

  lemma PixelStartIs(p: Pixels, x: nat, y: nat)
    requires y < p.height
    ensures PixelStart(p, x, y) == WireOffset(p.depth, p.width, p.height, x, y)
  {
    var b, r := BytesPerPixel(p.depth), p.height - 1 - y;
    ExtentIs(p.depth, r * p.width + x);
    Distribute(r * p.width, x, b);
    Assoc(r, p.width, b);
  }

  /** From the order's bytes to the canvas: after a bitmap order and a MemBlt from its cell, each covered canvas pixel
      shows the pixel of the delivered bytes that belongs there, rows counted from the bottom; all others are as
      before. */
  lemma SentTileLandsUpright(w: World, dirty: Option<Rect>, s: SentTile, d: seq<byte>, raw: seq<byte>, rle: RleCodec,
                             o: Primary, x: int, y: int)
    requires w.Valid() && TileSendable(s) && Stands(d, 0, TileCode(s)) && DepthTold(s) && Arrives(s, raw, rle)
    requires w.pic.Inside(x, y) && o.orderType == 0x0D && Holds(s, NatAt(o.vals, 0) % 256, NatAt(o.vals, 8))
    ensures var (sx, sy) := (N(o.vals, 6) + (x - N(o.vals, 1)), N(o.vals, 7) + (y - N(o.vals, 2)));
            var q := DrawOrder(Execute(w, dirty, Cache(TypeOf(s), s.extra, d), rle).0, o).0.pic;
            var p := s.pixels;
            && q.Valid()
            && if Touches(RectAt(o.vals, 1), o.clip, x, y) && 0 <= sx < p.width && 0 <= sy < p.height then
                 && PixelStart(p, sx, sy) + BytesPerPixel(p.depth) <= |raw|
                 && q.Get(x, y) == PixelOf(p.depth, raw, PixelStart(p, sx, sy))
               else q.Get(x, y) == w.pic.Get(x, y)
  {
    hide Stands, TileCode, DrawOrder, ApplySecondary, Tile, WireOffset, PixelOf, BytesPerPixel, BitmapTables.Get,
         BitmapTables.Valid, Delivered, TileSendable, DepthTold, PixelStart, Extent;
    var c, p := Caches(w.bitmaps, w.glyphs), s.pixels;
    TileStored(c, s, d, raw, rle, NatAt(o.vals, 0) % 256, NatAt(o.vals, 8));
    ExecuteCache(w, dirty, Cache(TypeOf(s), s.extra, d), rle);
    var after := Execute(w, dirty, Cache(TypeOf(s), s.extra, d), rle).0;
    StrideIs(p.depth, p.width, p.height);
    TileLandsUpright(after, o, p.depth, raw, p.width, p.height, x, y);
    var (sx, sy) := (N(o.vals, 6) + (x - N(o.vals, 1)), N(o.vals, 7) + (y - N(o.vals, 2)));
    if 0 <= sx < p.width && 0 <= sy < p.height {
      PixelStartIs(p, sx, sy);
    }
  }

  // ---- Pixel formats ---------------------------------------------------------------------------

  /** Sixteen bits: five of red, six of green, five of blue, the low byte first; channels are widened by repeating
      their top bits. */
  lemma Pixel565(raw: seq<byte>, i: nat, r: nat, g: nat, b: nat)
    requires i + 2 <= |raw| && r < 32 && g < 64 && b < 32
    requires raw[i] as int + 256 * (raw[i + 1] as int) == r * 2048 + g * 32 + b
    ensures PixelOf(Bpp16, raw, i) == Rgba(r * 8 + r / 4, g * 4 + g / 16, b * 8 + b / 4, 255)
  {
    hide Expand5, Expand6;
    var p := raw[i] as int + 256 * (raw[i + 1] as int);
    Unpack(p, 32, r * 64 + g, b);
    Unpack(p, 2048, r, g * 32 + b);
    Unpack(r * 64 + g, 64, r, g);
    Widened(p / 2048, r);
    Widened(p, b);
    Widened6(p / 32, g);
  }

  lemma Unpack(p: nat, weight: nat, high: nat, low: nat)
    requires low < weight && p == high * weight + low
    ensures p / weight == high && p % weight == low
  {
    DivMod(high, weight, low);
  }

  lemma Widened(v: nat, c: nat)
    requires v % 32 == c
    ensures Expand5(v) as nat == c * 8 + c / 4
  {
  }

  lemma Widened6(v: nat, c: nat)
    requires v % 64 == c
    ensures Expand6(v) as nat == c * 4 + c / 16
  {
  }

  /** Fifteen bits: five each; the top bit does not matter. */
  lemma Pixel555(raw: seq<byte>, i: nat, top: nat, r: nat, g: nat, b: nat)
    requires i + 2 <= |raw| && top < 2 && r < 32 && g < 32 && b < 32
    requires raw[i] as int + 256 * (raw[i + 1] as int) == top * 32768 + r * 1024 + g * 32 + b
    ensures PixelOf(Bpp15, raw, i) == Rgba(r * 8 + r / 4, g * 8 + g / 4, b * 8 + b / 4, 255)
  {
    hide Expand5;
    var p := raw[i] as int + 256 * (raw[i + 1] as int);
    Unpack(p, 32, top * 1024 + r * 32 + g, b);
    Unpack(p, 1024, top * 32 + r, g * 32 + b);
    Unpack(top * 1024 + r * 32 + g, 32, top * 32 + r, g);
    Unpack(top * 32 + r, 32, top, r);
    Widened(p / 1024, r);
    Widened(p / 32, g);
    Widened(p, b);
  }

  /** Twenty-four and thirty-two bits: blue, green, red, and a byte that does not matter; eight bits: grey. */
  lemma PixelBytes(raw: seq<byte>, i: nat)
    ensures i + 3 <= |raw| ==> PixelOf(Bpp24, raw, i) == Rgba(raw[i + 2], raw[i + 1], raw[i], 255)
    ensures i + 4 <= |raw| ==> PixelOf(Bpp32, raw, i) == Rgba(raw[i + 2], raw[i + 1], raw[i], 255)
    ensures i < |raw| ==> PixelOf(Bpp8, raw, i) == Rgba(raw[i], raw[i], raw[i], 255)
  {
  }

  // ---- Glyphs --------------------------------------------------------------------------------------

  datatype SentGlyph = SentGlyph(index: nat, g: Glyph)

  /** Rows padded to bytes, the whole to four bytes. */
  function GlyphBytes(g: Glyph): nat {
    var n := Times(RowBytes(g.cx), g.cy);
    if n % 4 == 0 then n else n + (4 - n % 4)
  }

  predicate GlyphSendable(s: SentGlyph) {
    && s.index < 0x1_0000 && -0x8000 <= s.g.x < 0x8000 && -0x8000 <= s.g.y < 0x8000
    && s.g.cx < 0x1_0000 && s.g.cy < 0x1_0000 && |s.g.aj| == GlyphBytes(s.g)
  }

  function GlyphCode(s: SentGlyph): seq<byte>
    requires GlyphSendable(s)
  {
    Le16(s.index) + Le16(Unsigned(s.g.x, 0x1_0000)) + Le16(Unsigned(s.g.y, 0x1_0000)) + Le16(s.g.cx) + Le16(s.g.cy)
        + s.g.aj
  }

  predicate AllGlyphsSendable(gs: seq<SentGlyph>) {
    forall i :: 0 <= i < |gs| ==> GlyphSendable(gs[i])
  }

  function GlyphsCode(gs: seq<SentGlyph>): seq<byte>
    requires AllGlyphsSendable(gs)
  {
    if gs == [] then [] else GlyphCode(gs[0]) + GlyphsCode(gs[1..])
  }

  lemma GlyphRoundTrip(s: SentGlyph, d: seq<byte>, pos: nat)
    requires GlyphSendable(s) && Stands(d, pos, GlyphCode(s))
    ensures TakeGlyph(d, pos) == Ok(Taken((s.index, s.g), pos + |GlyphCode(s)|))
  {
    hide Stands, Le16;
    var x, y := Unsigned(s.g.x, 0x1_0000), Unsigned(s.g.y, 0x1_0000);
    StandsSplit(d, pos, Le16(s.index) + Le16(x) + Le16(y) + Le16(s.g.cx) + Le16(s.g.cy), s.g.aj);
    StandsSplit(d, pos, Le16(s.index) + Le16(x) + Le16(y) + Le16(s.g.cx), Le16(s.g.cy));
    StandsSplit(d, pos, Le16(s.index) + Le16(x) + Le16(y), Le16(s.g.cx));
    StandsSplit(d, pos, Le16(s.index) + Le16(x), Le16(y));
    StandsSplit(d, pos, Le16(s.index), Le16(x));
    StandsWord(d, pos, s.index);
    StandsWord(d, pos + 2, x);
    StandsWord(d, pos + 4, y);
    StandsWord(d, pos + 6, s.g.cx);
    StandsWord(d, pos + 8, s.g.cy);
    StandsWhole(d, pos + 10, s.g.aj);
    TwosComplement(s.g.x);
    TwosComplement(s.g.y);
  }

  function AllInserted(t: GlyphTable, id: nat, gs: seq<SentGlyph>): GlyphTable
    decreases |gs|
  {
    if gs == [] then t else AllInserted(Inserted(t, id, gs[0].index, gs[0].g), id, gs[1..])
  }

  lemma {:induction false} GlyphsRoundTrip(t: GlyphTable, id: nat, gs: seq<SentGlyph>, d: seq<byte>, pos: nat)
    requires AllGlyphsSendable(gs) && pos <= |d| && Stands(d, pos, GlyphsCode(gs))
    ensures InsertGlyphs(t, id, d, pos, |gs|) == AllInserted(t, id, gs)
    decreases |gs|
  {
    hide Stands, TakeGlyph, Inserted, GlyphCode;
    if gs != [] {
      StandsSplit(d, pos, GlyphCode(gs[0]), GlyphsCode(gs[1..]));
      GlyphRoundTrip(gs[0], d, pos);
      StandsInside(d, pos, GlyphCode(gs[0]));
      GlyphsRoundTrip(Inserted(t, id, gs[0].index, gs[0].g), id, gs[1..], d, pos + |GlyphCode(gs[0])|);
    }
  }

  /** The last glyph sent for an index. */
  function LastFor(gs: seq<SentGlyph>, index: nat): Option<Glyph> {
    if gs == [] then None
    else
      var later := LastFor(gs[1..], index);
      if later.Some? then later else if gs[0].index == index then Some(gs[0].g) else None
  }

  lemma {:induction false} LookupAllInserted(t: GlyphTable, id: nat, gs: seq<SentGlyph>, id2: nat, index: nat)
    ensures Lookup(AllInserted(t, id, gs), id2, index)
            == if id2 == id && LastFor(gs, index).Some? then LastFor(gs, index) else Lookup(t, id2, index)
    decreases |gs|
  {
    hide Lookup, Inserted;
    if gs != [] {
      LookupAllInserted(Inserted(t, id, gs[0].index, gs[0].g), id, gs[1..], id2, index);
      LookupInserted(t, id, gs[0].index, gs[0].g, id2, index);
    }
  }

  /** After a glyph order each glyph that was sent is in its cell, the last one where a cell was sent twice, and every
      other cell and all bitmaps are unchanged. */
  lemma GlyphsStored(c: Caches, id: byte, extra: nat, gs: seq<SentGlyph>, d: seq<byte>, rle: RleCodec, id2: nat,
                     index: nat)
    requires AllGlyphsSendable(gs) && |gs| < 256 && Stands(d, 0, [id] + [|gs| as byte] + GlyphsCode(gs))
    ensures var r := ApplySecondary(c, 0x03, extra, d, rle);
            && r.bitmaps == c.bitmaps
            && Lookup(r.glyphs, id2, index)
               == if id2 == id && LastFor(gs, index).Some? then LastFor(gs, index) else Lookup(c.glyphs, id2, index)
  {
    hide Stands, Lookup, InsertGlyphs, AllInserted, GlyphsCode;
    StandsSplit(d, 0, [id] + [|gs| as byte], GlyphsCode(gs));
    StandsSplit(d, 0, [id], [|gs| as byte]);
    StandsByte(d, 0, id);
    StandsByte(d, 1, |gs|);
    StandsInside(d, 2, GlyphsCode(gs));
    StandsInside(d, 1, [|gs| as byte]);
    GlyphsRoundTrip(c.glyphs, id, gs, d, 2);
    LookupAllInserted(c.glyphs, id, gs, id2, index);
  }
}
