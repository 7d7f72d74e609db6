/**
 The composite frame, the pending region that accumulates between flushes, and the viewer's shared frame,
 which copies only the flushed region. The cheap incremental view is shown to agree with the full frame.
 */
module Composite {
  import opened Arith
  import opened Bits
  import opened Options
  import opened Rects
  import opened Pictures

  /** An update region, both corners inclusive. */
  datatype Region = Region(left: nat, top: nat, right: nat, bottom: nat) {
    predicate Proper() { left <= right && top <= bottom }
  }

  function UnionRegion(a: Option<Region>, b: Region): Option<Region> {
    if a.None? then Some(b)
    else
      var a := a.value;
      Some(Region(Min(a.left, b.left), Min(a.top, b.top), Max(a.right, b.right), Max(a.bottom, b.bottom)))
  }

  predicate Holds(g: Region, h: Region) {
    g.left <= h.left && g.top <= h.top && h.right <= g.right && h.bottom <= g.bottom
  }

  /** The union of regions is the least region that holds both. */
  lemma UnionRegionLeast(a: Region, b: Region, c: Region)
    ensures var u := UnionRegion(Some(a), b);
            u.Some? && Holds(u.value, a) && Holds(u.value, b) && (Holds(c, a) && Holds(c, b) ==> Holds(c, u.value))
    ensures UnionRegion(None, b) == Some(b)
  {
  }

  function Clamp(v: int, high: int): nat
    requires 0 <= high
  {
    if v < 0 then 0 else if v > high then high else v
  }

  /** The dirty rectangle of an Orders update as a region of a canvas. */
  function OrderRegion(width: nat, height: nat, r: Rect): Region {
    var (maxX, maxY) := (Max(width - 1, 0), Max(height - 1, 0));
    Region(Clamp(r.x, maxX), Clamp(r.y, maxY), Clamp(r.Right() - 1, maxX), Clamp(r.Bottom() - 1, maxY))
  }

  /** Last column or row that a copy reaches. */
  function Last(edge: nat, size: nat): nat { Min(edge, Max(size - 1, 0)) }

  // ---- Copies of pixel blocks --------------------------------------------------------------

  /** Byte `i` belongs to the block of columns l..r and rows t..b. */
  predicate InBlock(width: nat, l: int, t: int, r: int, b: int, i: nat) {
    width > 0 && l <= i / 4 % width <= r && t <= i / 4 / width <= b
  }

  function CopiedData(width: nat, dst: seq<byte>, src: seq<byte>, l: int, t: int, r: int, b: int): (d: seq<byte>)
    requires |src| == |dst|
    ensures |d| == |dst|
  {
    seq(|dst|, i requires 0 <= i < |dst| => if InBlock(width, l, t, r, b, i) then src[i] else dst[i])
  }

  function Copied(p: Picture, src: Picture, l: int, t: int, r: int, b: int): (q: Picture)
    requires p.Valid() && src.Valid() && SameSize(p, src)
    ensures q.Valid() && SameSize(p, q)
  {
    p.(data := CopiedData(p.width, p.data, src.data, l, t, r, b))
  }

  lemma CopiedGet(p: Picture, src: Picture, l: int, t: int, r: int, b: int, x: nat, y: nat)
    requires p.Valid() && src.Valid() && SameSize(p, src) && p.Inside(x, y)
    ensures Copied(p, src, l, t, r, b).Get(x, y) == if l <= x <= r && t <= y <= b then src.Get(x, y) else p.Get(x, y)
  {
    var i := Index(p.width, x, y);
    IndexInside(p.width, p.height, x, y);
    QuarterOf(y * p.width + x);
    DivMod(y, p.width, x);
  }

  /** The bytes of one row of a block are consecutive. */
  lemma RowOfBlock(width: nat, left: nat, right: nat, y: nat, i: nat)
    requires left <= right + 1 && right < width
    ensures Index(width, left, y) <= i < Index(width, right + 1, y) <==> InBlock(width, left, y, right, y, i)
  {
    var n := i / 4;
    Euclid(n, width);
    assert y * width == width * y;
    if y * width + left <= n < y * width + right + 1 {
      DivMod(y, width, n - y * width);
    }
  }

  lemma RowFits(width: nat, height: nat, right: nat, y: nat)
    ensures right < width && y < height ==> Index(width, right + 1, y) <= width * height * 4
    ensures width == 0 || height == 0 ==> Index(width, right + 1, y) > width * height * 4
  {
    if right < width && y < height {
      IndexInside(width, height, right, y);
    }
  }

  /** Row-by-row copy; rows that do not fit either buffer are left out. */
  method CopyRows(dst: array<byte>, src: seq<byte>, width: nat, height: nat, left: nat, top: nat, right: nat,
                  bottom: nat)
    requires dst.Length == |src| == width * height * 4
    requires right == Last(right, width) && top <= bottom == Last(bottom, height)
    requires left <= right + 1 || width == 0 || height == 0
    modifies dst
    ensures dst[..] == CopiedData(width, old(dst[..]), src, left, top, right, bottom)
  {
    hide InBlock;
    NoRows(width, left, top, right, top - 1);
    for y := top to bottom + 1
      invariant forall i :: 0 <= i < |src| ==>
        dst[i] == if InBlock(width, left, top, right, y - 1, i) then src[i] else old(dst[i])
    {
      CopyRow(dst, src, width, height, left, right, y);
      RowsGrow(width, left, top, right, y);
    }
  }

  method CopyRow(dst: array<byte>, src: seq<byte>, width: nat, height: nat, left: nat, right: nat, y: nat)
    requires dst.Length == |src| == width * height * 4
    requires width > 0 && height > 0 ==> left <= right + 1 <= width && y < height
    modifies dst
    ensures forall i :: 0 <= i < |src| ==> dst[i] == if InBlock(width, left, y, right, y, i) then src[i]
            else old(dst[i])
  {
    hide Index, InBlock;
    RowFits(width, height, right, y);
    var a, b := Index(width, left, y), Index(width, right + 1, y);
    if b <= dst.Length && b <= |src| {
      forall i | 0 <= i < |src|
        ensures a <= i < b <==> InBlock(width, left, y, right, y, i)
      {
        RowOfBlock(width, left, right, y, i);
      }
      forall i | a <= i < b {
        dst[i] := src[i];
      }
    }
  }

  lemma NoRows(width: nat, l: int, t: int, r: int, b: int)
    requires b < t
    ensures forall i: nat :: !InBlock(width, l, t, r, b, i)
  {
  }

  lemma RowsGrow(width: nat, l: nat, t: nat, r: nat, y: nat)
    requires t <= y
    ensures forall i: nat ::
              InBlock(width, l, t, r, y, i) <==> InBlock(width, l, t, r, y - 1, i) || InBlock(width, l, y, r, y, i)
  {
  }

  // ---- The composite frame -------------------------------------------------------------------

  /** A source of another size is skipped. */
  function Blitted(p: Picture, src: Picture, g: Region): (q: Picture)
    requires p.Valid() && src.Valid()
    ensures q.Valid() && SameSize(p, q)
  {
    if !SameSize(src, p) then p
    else
      var (r, b) := (Last(g.right, p.width), Last(g.bottom, p.height));
      Copied(p, src, Min(g.left, r), Min(g.top, b), r, b)
  }

  class CompositeFrame {
    var width: nat
    var height: nat
    var data: array<byte>

    ghost predicate Valid()
      reads this, data
    {
      Pic().Valid()
    }

    function Pic(): Picture
      reads this, data
    {
      Picture(width, height, data[..])
    }

    constructor (width: nat, height: nat)
      requires width < 0x1_0000 && height < 0x1_0000
      ensures Valid() && fresh(data) && Pic() == Blank(width, height)
    {
      this.width, this.height := width, height;
      data := new byte[Times(width, height) * 4](_ => 0);
    }

    method Resize(width: nat, height: nat)
      requires width < 0x1_0000 && height < 0x1_0000
      modifies this
      ensures Valid() && fresh(data) && Pic() == Blank(width, height)
    {
      this.width, this.height := width, height;
      data := new byte[Times(width, height) * 4](_ => 0);
    }

    method Blit(src: Picture, region: Region)
      requires Valid() && src.Valid()
      modifies data
      ensures Valid() && Pic() == Blitted(old(Pic()), src, region)
    {
      if src.width != width || src.height != height {
        return;
      }
      var right, bottom := Last(region.right, width), Last(region.bottom, height);
      CopyRows(data, src.data, width, height, Min(region.left, right), Min(region.top, bottom), right, bottom);
    }
  }

  // ---- The viewer's shared frame ----------------------------------------------------------------

  /** What the viewer shows from: its copy of the frame, and what changed in it since the last repaint. */
  datatype Shown = Shown(pic: Picture, dirty: Option<Region>, fullResync: bool)

  /** The rows copied are sliced from `left` to `right`, which panics when they cross. */
  predicate Slices(p: Picture, g: Region) {
    p.width == 0 || p.height == 0 || g.left <= Last(g.right, p.width) + 1
  }

  function ShownAfter(s: Shown, image: Picture, g: Region, resync: bool): Shown
    requires s.pic.Valid() && image.Valid()
  {
    if !SameSize(s.pic, image) || resync then Shown(image, s.dirty, true)
    else
      var (r, b) := (Last(g.right, image.width), Last(g.bottom, image.height));
      var t := Min(g.top, b);
      Shown(Copied(s.pic, image, g.left, t, r, b), UnionRegion(s.dirty, Region(g.left, t, r, b)), s.fullResync)
  }

  class FrameSink {
    var width: nat
    var height: nat
    var rgba: array<byte>
    var dirty: Option<Region>
    var fullResync: bool

    ghost predicate Valid()
      reads this, rgba
    {
      Abs().pic.Valid()
    }

    function Abs(): Shown
      reads this, rgba
    {
      Shown(Picture(width, height, rgba[..]), dirty, fullResync)
    }

    constructor ()
      ensures Valid() && fresh(rgba) && Abs() == Shown(Blank(0, 0), None, false)
    {
      width, height, dirty, fullResync := 0, 0, None, false;
      rgba := new byte[0];
    }

    /** `resync`: the periodic full copy is due. */
    method OnGraphicsUpdate(image: Picture, region: Region, resync: bool)
      requires Valid() && image.Valid()
      requires SameSize(Abs().pic, image) && !resync ==> Slices(image, region)
      modifies this, rgba
      ensures Valid() && (fresh(rgba) || rgba == old(rgba))
      ensures Abs() == ShownAfter(old(Abs()), image, region, resync)
    {
      if width != image.width || height != image.height || rgba.Length != |image.data| || resync {
        width, height := image.width, image.height;
        rgba := new byte[|image.data|](i requires 0 <= i < |image.data| => image.data[i]);
        fullResync := true;
        assert rgba[..] == image.data;
      } else {
        var left, right, bottom := region.left, Last(region.right, image.width), Last(region.bottom, image.height);
        var top := Min(region.top, bottom);
        CopyRows(rgba, image.data, width, height, left, top, right, bottom);
        dirty := UnionRegion(dirty, Region(left, top, right, bottom));
      }
    }

    /** A repaint takes what has to go to the texture. */
    method TakeUpload() returns (u: Upload)
      requires Valid()
      modifies this`dirty, this`fullResync
      ensures Valid() && u == Due(old(Abs()))
      ensures Abs() == old(Abs()).(dirty := None, fullResync := false)
    {
      if fullResync {
        fullResync, dirty := false, None;
        return Full;
      }
      if dirty.Some? {
        u := Rows(dirty.value.top, dirty.value.bottom);
        dirty := None;
      } else {
        u := Skip;
      }
    }
  }

  // ---- The texture -------------------------------------------------------------------------------

  datatype Upload = Full | Rows(top: nat, bottom: nat) | Skip

  function Due(s: Shown): Upload {
    if s.fullResync then Full else if s.dirty.Some? then Rows(s.dirty.value.top, s.dirty.value.bottom) else Skip
  }

  function Uploaded(texture: Picture, u: Upload, frame: Picture): Picture
    requires texture.Valid() && frame.Valid()
  {
    match u
    case Full => frame
    case Rows(t, b) => if SameSize(texture, frame) then Copied(texture, frame, 0, t, frame.width, b) else texture
    case Skip => texture
  }

  // ---- Runs of the session loop ----------------------------------------------------------------------

  datatype View = View(composite: Picture, pending: Option<Region>, shown: Shown, texture: Picture) {
    ghost predicate Valid() { composite.Valid() && shown.pic.Valid() && texture.Valid() }
  }

  datatype Event =
    | Update(src: Picture, region: Region)
    | Flush(resync: bool)
    | Repaint
    | Reactivate(width: nat, height: nat)

  ghost predicate ValidEvent(e: Event) {
    && (e.Update? ==> e.src.Valid())
    && (e.Reactivate? ==> e.width < 0x1_0000 && e.height < 0x1_0000)
  }

  ghost function Step(v: View, e: Event): (r: View)
    requires v.Valid() && ValidEvent(e)
    ensures r.Valid()
  {
    match e
    case Update(src, g) => v.(composite := Blitted(v.composite, src, g), pending := UnionRegion(v.pending, g))
    case Flush(resync) =>
      if v.pending.None? then v
          else v.(pending := None, shown := ShownAfter(v.shown, v.composite, v.pending.value, resync))
    case Repaint =>
      v.(texture := Uploaded(v.texture, Due(v.shown), v.shown.pic),
         shown := v.shown.(dirty := None, fullResync := false))
    case Reactivate(w, h) => v.(composite := Blank(w, h), pending := None)
  }

  /** A flush of the region would copy this pixel. */
  predicate Reached(p: Picture, g: Option<Region>, x: int, y: int) {
    && g.Some?
    && g.value.left <= x <= Last(g.value.right, p.width)
    && Min(g.value.top, Last(g.value.bottom, p.height)) <= y <= Last(g.value.bottom, p.height)
  }

  /** Where the shared frame differs from the composite of its size, a flush is pending. */
  ghost predicate Agree(v: View)
    requires v.Valid()
  {
    SameSize(v.shown.pic, v.composite) ==>
      forall x, y :: v.composite.Inside(x, y) && v.shown.pic.Get(x, y) != v.composite.Get(x, y) ==>
        Reached(v.composite, v.pending, x, y)
  }

  /** Where the texture differs from the shared frame, an upload is due. */
  ghost predicate Uploadable(v: View)
    requires v.Valid()
  {
    v.shown.fullResync
    || (SameSize(v.texture, v.shown.pic)
        && forall x, y :: v.texture.Inside(x, y) && v.texture.Get(x, y) != v.shown.pic.Get(x, y) ==>
             v.shown.dirty.Some? && v.shown.dirty.value.top <= y <= v.shown.dirty.value.bottom)
  }

  /** A region that starts inside the frame. */
  predicate Starts(p: Picture, g: Region) {
    g.Proper() && (p.width > 0 ==> g.left < p.width)
  }

  ghost predicate Good(v: View) {
    v.Valid() && Agree(v) && Uploadable(v) && (v.pending.Some? ==> Starts(v.composite, v.pending.value))
  }

  /** What the session needs of its sources; and a reactivation must not clear the composite under a shared frame of
      the new size. */
  ghost predicate Expected(v: View, e: Event)
    requires v.Valid()
  {
    && ValidEvent(e)
    && (e.Update? ==> Starts(v.composite, e.region))
    && (e.Reactivate? ==> SameSize(v.shown.pic, Blank(e.width, e.height)) ==> v.shown.pic == Blank(e.width, e.height))
  }

  lemma UpdateKeeps(v: View, src: Picture, g: Region)
    requires Good(v) && src.Valid() && Starts(v.composite, g)
    ensures Good(Step(v, Update(src, g)))
  {
    hide Picture.Get, Copied;
    var w := Step(v, Update(src, g));
    var p := v.composite;
    if SameSize(v.shown.pic, p) {
      forall x, y | p.Inside(x, y) && v.shown.pic.Get(x, y) != w.composite.Get(x, y)
        ensures Reached(p, w.pending, x, y)
      {
        if SameSize(src, p) {
          var (r, b) := (Last(g.right, p.width), Last(g.bottom, p.height));
          CopiedGet(p, src, Min(g.left, r), Min(g.top, b), r, b, x, y);
        }
        ReachedUnion(p, v.pending, g, x, y);
      }
    }
  }

  lemma ReachedUnion(p: Picture, a: Option<Region>, g: Region, x: int, y: int)
    requires (a.Some? ==> a.value.Proper()) && g.Proper() && p.Inside(x, y)
    ensures Reached(p, a, x, y) || Reached(p, Some(g), x, y) ==> Reached(p, UnionRegion(a, g), x, y)
  {
  }

  /** A flush never slices wrongly, and it makes the shared frame the composite again. */
  lemma FlushRestores(v: View, resync: bool)
    requires Good(v) && v.pending.Some?
    ensures Slices(v.composite, v.pending.value)
    ensures Step(v, Flush(resync)).shown.pic == v.composite
  {
    hide Picture.Get, Copied;
    var p, g := v.composite, v.pending.value;
    var q := ShownAfter(v.shown, p, g, resync).pic;
    if SameSize(v.shown.pic, p) && !resync {
      var (r, b) := (Last(g.right, p.width), Last(g.bottom, p.height));
      forall x, y | p.Inside(x, y)
        ensures q.Get(x, y) == p.Get(x, y)
      {
        CopiedGet(v.shown.pic, p, g.left, Min(g.top, b), r, b, x, y);
      }
      SamePicture(q, p);
    }
  }

  lemma FlushKeeps(v: View, resync: bool)
    requires Good(v)
    ensures Good(Step(v, Flush(resync)))
  {
    hide Picture.Get, Copied;
    if v.pending.Some? {
      FlushRestores(v, resync);
      var w, p, g := Step(v, Flush(resync)), v.composite, v.pending.value;
      if SameSize(v.shown.pic, p) && !resync && !v.shown.fullResync {
        var (r, b) := (Last(g.right, p.width), Last(g.bottom, p.height));
        forall x, y | p.Inside(x, y) && w.texture.Get(x, y) != w.shown.pic.Get(x, y)
          ensures w.shown.dirty.Some? && w.shown.dirty.value.top <= y <= w.shown.dirty.value.bottom
        {
          CopiedGet(v.shown.pic, p, g.left, Min(g.top, b), r, b, x, y);
        }
      }
    }
  }

  /** After a repaint the texture is the shared frame. */
  lemma RepaintShows(v: View)
    requires Good(v)
    ensures Good(Step(v, Repaint)) && Step(v, Repaint).texture == v.shown.pic
  {
    hide Picture.Get, Copied;
    var s, t := v.shown, v.texture;
    var q := Uploaded(t, Due(s), s.pic);
    if !s.fullResync {
      forall x, y | s.pic.Inside(x, y)
        ensures q.Get(x, y) == s.pic.Get(x, y)
      {
        if s.dirty.Some? {
          CopiedGet(t, s.pic, 0, s.dirty.value.top, s.pic.width, s.dirty.value.bottom, x, y);
        }
      }
      SamePicture(q, s.pic);
    }
  }

  /** A reactivation clears the composite without a pending region: the shared frame still agrees
      exactly when it has another size, or shows nothing yet. */
  lemma ReactivationAgreesIff(v: View, width: nat, height: nat)
    requires v.Valid() && width < 0x1_0000 && height < 0x1_0000
    ensures Agree(Step(v, Reactivate(width, height)))
            <==> !SameSize(v.shown.pic, Blank(width, height)) || v.shown.pic == Blank(width, height)
  {
    hide Picture.Get;
    var w := Step(v, Reactivate(width, height));
    if Agree(w) && SameSize(v.shown.pic, w.composite) {
      SamePicture(v.shown.pic, w.composite);
    }
  }

  lemma StepKeeps(v: View, e: Event)
    requires Good(v) && Expected(v, e)
    ensures Good(Step(v, e))
  {
    hide Agree, Uploadable, Blank;
    match e
    case Update(src, g) => UpdateKeeps(v, src, g);
    case Flush(resync) => FlushKeeps(v, resync);
    case Repaint => RepaintShows(v);
    case Reactivate(w, h) =>
      ReactivationAgreesIff(v, w, h);
      UploadableKept(v, Step(v, e));
  }

  lemma UploadableKept(v: View, w: View)
    requires v.Valid() && w.Valid() && Uploadable(v) && w.shown == v.shown && w.texture == v.texture
    ensures Uploadable(w)
  {
  }

  ghost function Run(v: View, es: seq<Event>): (r: View)
    requires v.Valid() && forall i :: 0 <= i < |es| ==> ValidEvent(es[i])
    ensures r.Valid()
    decreases |es|
  {
    if es == [] then v else Step(Run(v, es[..|es| - 1]), es[|es| - 1])
  }

  ghost predicate ExpectedRun(v: View, es: seq<Event>)
    requires v.Valid() && forall i :: 0 <= i < |es| ==> ValidEvent(es[i])
    decreases |es|
  {
    es == [] || (ExpectedRun(v, es[..|es| - 1]) && Expected(Run(v, es[..|es| - 1]), es[|es| - 1]))
  }

  function Fresh(width: nat, height: nat): View
    requires width < 0x1_0000 && height < 0x1_0000
  {
    View(Blank(width, height), None, Shown(Blank(0, 0), None, false), Blank(0, 0))
  }

  lemma FreshGood(width: nat, height: nat)
    requires width < 0x1_0000 && height < 0x1_0000
    ensures Good(Fresh(width, height))
  {
  }

  /** In every run, wherever the viewer's frame differs from the composite of its size a flush is pending, wherever the
      texture differs from the viewer's frame an upload is due, and no flush panics; so a flush and a repaint show the
      whole composite. */
  lemma {:induction false} RunAgrees(width: nat, height: nat, es: seq<Event>)
    requires width < 0x1_0000 && height < 0x1_0000
    requires forall i :: 0 <= i < |es| ==> ValidEvent(es[i])
    requires ExpectedRun(Fresh(width, height), es)
    ensures var v := Run(Fresh(width, height), es);
            && Good(v)
            && (v.pending.Some? ==> Slices(v.composite, v.pending.value))
            && forall resync :: v.pending.Some? ==>
                 var w := Step(Step(v, Flush(resync)), Repaint); w.texture == w.shown.pic == w.composite == v.composite
    decreases |es|
  {
    hide Good, Expected;
    var v0 := Fresh(width, height);
    if es == [] {
      FreshGood(width, height);
    } else {
      var before := es[..|es| - 1];
      RunAgrees(width, height, before);
      StepKeeps(Run(v0, before), es[|es| - 1]);
    }
    FlushedAndShown(Run(v0, es));
  }

  lemma FlushedAndShown(v: View)
    requires Good(v)
    ensures v.pending.Some? ==> Slices(v.composite, v.pending.value)
    ensures forall resync :: v.pending.Some? ==>
              var w := Step(Step(v, Flush(resync)), Repaint); w.texture == w.shown.pic == w.composite == v.composite
  {
    hide Agree, Uploadable;
    forall resync | v.pending.Some?
      ensures var w := Step(Step(v, Flush(resync)), Repaint); w.texture == w.shown.pic == w.composite == v.composite
    {
      FlushRestores(v, resync);
      FlushKeeps(v, resync);
      RepaintShows(Step(v, Flush(resync)));
    }
    if v.pending.Some? {
      FlushRestores(v, false);
    }
  }

  // ---- Why regions must start inside the frame -------------------------------------------------------

  /** From equal frames, one update is shown after its flush whatever it paints. */
  ghost predicate AlwaysShown(p: Picture, g: Region)
    requires p.Valid()
  {
    Slices(p, g)
    && forall src: Picture, s: Shown :: src.Valid() && SameSize(src, p) && s.pic == p ==>
         var q := Blitted(p, src, g); ShownAfter(s, q, g, false).pic == q
  }

  /** The composite clamps a region's left edge to its right one, the viewer does not: one update is shown
      exactly when its left edge does not lie beyond the last column copied. */
  lemma AlwaysShownIff(p: Picture, g: Region)
    requires p.Valid() && p.width > 0 && p.height > 0
    ensures AlwaysShown(p, g) <==> g.left <= Last(g.right, p.width)
  {
    hide Picture.Get, Copied;
    var (r, b) := (Last(g.right, p.width), Last(g.bottom, p.height));
    if g.left <= r {
      forall src: Picture, s: Shown | src.Valid() && SameSize(src, p) && s.pic == p
        ensures var q := Blitted(p, src, g); ShownAfter(s, q, g, false).pic == q
      {
        ShownOnce(p, src, s, g);
      }
    } else {
      var src := OtherPicture(p);
      var s, q := Shown(p, None, false), Blitted(p, src, g);
      CopiedGet(p, src, r, Min(g.top, b), r, b, r, b);
      CopiedGet(p, q, g.left, Min(g.top, b), r, b, r, b);
      OtherGet(p, r, b);
      assert q.Get(r, b) != p.Get(r, b);
      assert ShownAfter(s, q, g, false).pic.Get(r, b) == p.Get(r, b);
    }
  }

  lemma ShownOnce(p: Picture, src: Picture, s: Shown, g: Region)
    requires p.Valid() && src.Valid() && SameSize(src, p) && s.pic == p && g.left <= Last(g.right, p.width)
    ensures var q := Blitted(p, src, g); ShownAfter(s, q, g, false).pic == q
  {
    hide Picture.Get, Copied;
    var (r, b) := (Last(g.right, p.width), Last(g.bottom, p.height));
    var q := Blitted(p, src, g);
    var n := ShownAfter(s, q, g, false).pic;
    forall x, y | p.Inside(x, y)
      ensures n.Get(x, y) == q.Get(x, y)
    {
      CopiedGet(p, src, g.left, Min(g.top, b), r, b, x, y);
      CopiedGet(p, q, g.left, Min(g.top, b), r, b, x, y);
    }
    SamePicture(n, q);
  }

  /** A picture that differs everywhere. */
  function OtherPicture(p: Picture): (q: Picture)
    requires p.Valid()
    ensures q.Valid() && SameSize(p, q)
  {
    p.(data := seq(|p.data|, i requires 0 <= i < |p.data| => 255 - p.data[i]))
  }

  lemma OtherGet(p: Picture, x: nat, y: nat)
    requires p.Valid() && p.Inside(x, y)
    ensures OtherPicture(p).Get(x, y) != p.Get(x, y)
  {
    IndexInside(p.width, p.height, x, y);
  }

  // ---- The loop's own state ------------------------------------------------------------------------------

  class GraphicsLoop {
    const composite: CompositeFrame
    const sink: FrameSink
    var pending: Option<Region>
    /** What the GPU holds. */
    ghost var texture: Picture

    ghost predicate Valid()
      reads this, composite, composite.data, sink, sink.rgba
    {
      composite.Valid() && sink.Valid() && texture.Valid() && composite.data != sink.rgba
    }

    ghost function Abs(): View
      reads this, composite, composite.data, sink, sink.rgba
    {
      View(composite.Pic(), pending, sink.Abs(), texture)
    }

    constructor (width: nat, height: nat)
      requires width < 0x1_0000 && height < 0x1_0000
      ensures Valid() && fresh(composite) && fresh(composite.data) && fresh(sink) && fresh(sink.rgba)
      ensures Abs() == Fresh(width, height)
    {
      composite := new CompositeFrame(width, height);
      sink := new FrameSink();
      pending := None;
      texture := Blank(0, 0);
    }

    method Blit(src: Picture, region: Region)
      requires Valid() && src.Valid()
      modifies this`pending, composite.data
      ensures Valid() && Abs() == Step(old(Abs()), Update(src, region))
    {
      composite.Blit(src, region);
      pending := UnionRegion(pending, region);
    }

    method Flush(resync: bool)
      requires Valid() && Good(Abs())
      modifies this`pending, sink, sink.rgba
      ensures Valid() && Abs() == Step(old(Abs()), Event.Flush(resync))
      ensures old(pending).Some? ==> sink.Abs().pic == composite.Pic()
    {
      if pending.Some? {
        FlushRestores(Abs(), resync);
        var region := pending.value;
        pending := None;
        sink.OnGraphicsUpdate(composite.Pic(), region, resync);
      }
    }

    method Reactivate(width: nat, height: nat)
      requires Valid() && width < 0x1_0000 && height < 0x1_0000
      modifies this`pending, composite
      ensures Valid() && fresh(composite.data) && Abs() == Step(old(Abs()), Event.Reactivate(width, height))
    {
      composite.Resize(width, height);
      pending := None;
    }

    method Repaint() returns (u: Upload)
      requires Valid() && Good(Abs())
      modifies this`texture, sink`dirty, sink`fullResync
      ensures Valid() && Abs() == Step(old(Abs()), Event.Repaint) && texture == sink.Abs().pic
    {
      RepaintShows(Abs());
      ghost var frame := sink.Abs().pic;
      u := sink.TakeUpload();
      texture := Uploaded(texture, u, frame);
    }
  }
}
