/**
 Drawing orders all the way to the screen: the dirty rectangle of every update, as a region, brings the
 composite frame level with the canvas, so that a flush and a repaint show exactly what was drawn.
 */
module Mirror {
  import opened Bits
  import opened Options
  import opened Rects
  import opened Pictures
  import opened Lines
  import opened Fields
  import opened Orders
  import opened Bitmaps
  import opened Render
  import opened Processor
  import opened Footprint
  import Composite

  /** What the session loop does with the dirty rectangle of an update that was processed without error. */
  ghost function Drawn(v: Composite.View, canvas: Picture, dirty: Option<Rect>): (r: Composite.View)
    requires v.Valid() && canvas.Valid()
    ensures r.Valid()
  {
    if dirty.None? then v
    else Composite.Step(v, Composite.Update(canvas, Composite.OrderRegion(canvas.width, canvas.height, dirty.value)))
  }

  lemma RegionStarts(p: Picture, r: Rect)
    requires p.Valid() && !r.IsEmpty() && r.Small()
    ensures Composite.Starts(p, Composite.OrderRegion(p.width, p.height, r))
  {
  }

  /** The region reaches every pixel of the canvas that the rectangle holds. */
  lemma RegionCovers(p: Picture, r: Rect, x: int, y: int)
    requires p.Valid() && p.Inside(x, y) && r.Small() && r.Has(x, y)
    ensures var g := Composite.OrderRegion(p.width, p.height, r);
            g.left <= x <= g.right && g.top <= y <= g.bottom
            && g.left <= g.right < p.width && g.top <= g.bottom < p.height
  {
  }

  /** ... and, if it holds any, no other. */
  lemma RegionExact(p: Picture, r: Rect, x: int, y: int, a: int, b: int)
    requires p.Valid() && r.Small() && p.Inside(x, y) && r.Has(x, y) && p.Inside(a, b)
    ensures var g := Composite.OrderRegion(p.width, p.height, r);
            g.left <= a <= g.right && g.top <= b <= g.bottom <==> r.x <= a < r.x + r.w && r.y <= b < r.y + r.h
  {
  }

  lemma StartsLike(p: Picture, q: Picture, g: Composite.Region)
    requires SameSize(p, q) && Composite.Starts(p, g)
    ensures Composite.Starts(q, g)
  {
  }

  /** A pixel of an inclusive region. */
  predicate InRegion(g: Composite.Region, x: int, y: int) {
    g.left <= x <= g.right && g.top <= y <= g.bottom
  }

  /** The frame after the region was copied: the canvas inside it, as before outside. */
  lemma DrawnPixel(v: Composite.View, canvas: Picture, r: Rect, x: int, y: int)
    requires v.Valid() && canvas.Valid() && SameSize(v.composite, canvas) && canvas.Inside(x, y) && !r.IsEmpty()
             && r.Small()
    ensures var (g, q) := (Composite.OrderRegion(canvas.width, canvas.height, r), Drawn(v, canvas, Some(r)).composite);
            SameSize(q, canvas) && q.Get(x, y) == if InRegion(g, x, y) then canvas.Get(x, y) else v.composite.Get(x, y)
  {
    hide Picture.Get, Composite.Copied;
    var g := Composite.OrderRegion(canvas.width, canvas.height, r);
    var (right, bottom) := (Composite.Last(g.right, canvas.width), Composite.Last(g.bottom, canvas.height));
    Composite.CopiedGet(v.composite, canvas, Min(g.left, right), Min(g.top, bottom), right, bottom, x, y);
  }

  lemma DrawnFits(v: Composite.View, before: Picture, after: Picture, dirty: Option<Rect>)
    requires Composite.Good(v) && before.Valid() && after.Valid() && SameSize(v.composite, before)
    requires SameSize(before, after) && CoversOption(before, after, dirty)
    ensures var w := Drawn(v, after, dirty); Composite.Good(w) && SameSize(w.composite, after)
  {
    hide Composite.Agree, Composite.Uploadable, Composite.OrderRegion, Composite.Starts;
    if dirty.Some? {
      var g := Composite.OrderRegion(after.width, after.height, dirty.value);
      RegionStarts(after, dirty.value);
      StartsLike(after, v.composite, g);
      Composite.UpdateKeeps(v, after, g);
    }
  }

  /** After a drawn update, composite and canvas differ only where they did before, outside the region. */
  lemma DrawnMirrors(v: Composite.View, before: Picture, after: Picture, dirty: Option<Rect>, x: int, y: int)
    requires v.Valid() && before.Valid() && after.Valid() && SameSize(v.composite, before) && before.Inside(x, y)
    requires SameSize(before, after) && CoversOption(before, after, dirty)
    ensures var q := Drawn(v, after, dirty).composite;
            q.Get(x, y) != after.Get(x, y) ==>
              && v.composite.Get(x, y) != before.Get(x, y)
              && (dirty.Some? ==> !InRegion(Composite.OrderRegion(after.width, after.height, dirty.value), x, y))
  {
    hide Picture.Get, Composite.OrderRegion, Composite.Blitted;
    if dirty.Some? {
      DrawnPixel(v, after, dirty.value, x, y);
      if dirty.value.Has(x, y) {
        RegionCovers(after, dirty.value, x, y);
      }
    }
  }

  // ---- Whole sessions ----------------------------------------------------------------------------

  datatype Session = Session(st: Sticky, w: World, v: Composite.View) {
    ghost predicate Valid() { st.Valid() && w.Valid() && v.Valid() }

    /** The viewer will show the composite, which has the canvas's size. */
    ghost predicate Fitted() { Valid() && Composite.Good(v) && SameSize(v.composite, w.pic) }

    /** The composite shows the canvas, and the viewer will. */
    ghost predicate Level() { Valid() && Composite.Good(v) && v.composite == w.pic }
  }

  /** One Orders update through decoder, canvas and composite. A failing one does not reach the composite. */
  ghost function Turn(s: Session, d: seq<byte>, rle: RleCodec): (r: Session)
    requires s.Valid()
    ensures r.Valid()
  {
    var p := Processed(s.st, s.w, d, rle);
    Session(p.0, p.1, if p.2.Ok? then Drawn(s.v, p.1.pic, p.2.value.dirty) else s.v)
  }

  ghost function Turns(s: Session, ds: seq<seq<byte>>, rle: RleCodec): (r: Session)
    requires s.Valid()
    ensures r.Valid()
    decreases |ds|
  {
    if ds == [] then s else Turn(Turns(s, ds[..|ds| - 1], rle), ds[|ds| - 1], rle)
  }

  ghost predicate Decodes(s: Session, d: seq<byte>, rle: RleCodec)
    requires s.Valid()
  {
    Processed(s.st, s.w, d, rle).2.Ok?
  }

  /** The union of the rectangles that the update's orders reported, up to its error if it has one. */
  ghost function DirtyRect(s: Session, d: seq<byte>, rle: RleCodec): Option<Rect>
    requires s.Valid()
  {
    ExecuteAll(s.w, ParseUpdate(s.st, d).actions, rle).1
  }

  /** The update fails after it has drawn around this pixel. */
  ghost predicate Spoils(s: Session, d: seq<byte>, rle: RleCodec, x: int, y: int)
    requires s.Valid()
  {
    var r := DirtyRect(s, d, rle);
    !Decodes(s, d, rle) && r.Some? && r.value.Has(x, y)
  }

  /** The update decodes and its region holds this pixel. */
  ghost predicate Repaints(s: Session, d: seq<byte>, rle: RleCodec, x: int, y: int)
    requires s.Valid()
  {
    var r := DirtyRect(s, d, rle);
    Decodes(s, d, rle) && r.Some? && InRegion(Composite.OrderRegion(s.w.pic.width, s.w.pic.height, r.value), x, y)
  }

  /** Lines are drawn where line drawing does not overflow. */
  ghost predicate Drawable(s: Session, d: seq<byte>)
    requires s.Valid()
  {
    LinesDrawable(ParseUpdate(s.st, d).actions)
  }

  lemma TurnFits(s: Session, d: seq<byte>, rle: RleCodec)
    requires s.Fitted() && Drawable(s, d)
    ensures Turn(s, d, rle).Fitted() && SameSize(s.w.pic, Turn(s, d, rle).w.pic)
  {
    hide ParseUpdate, ExecuteAll, Composite.Good, Drawn, CoversOption, LinesDrawable;
    AllCovered(s.w, ParseUpdate(s.st, d).actions, rle);
    var p := Processed(s.st, s.w, d, rle);
    if p.2.Ok? {
      DrawnFits(s.v, s.w.pic, p.1.pic, p.2.value.dirty);
    }
  }

  /** Any update at all: composite and canvas come to differ only where a failing update has drawn, and come to agree
      where a decoding one has its region. */
  lemma TurnDiffers(s: Session, d: seq<byte>, rle: RleCodec, x: int, y: int)
    requires s.Fitted() && Drawable(s, d) && s.w.pic.Inside(x, y)
    ensures var t := Turn(s, d, rle);
            t.v.composite.Get(x, y) != t.w.pic.Get(x, y) ==>
              || Spoils(s, d, rle, x, y)
              || (s.v.composite.Get(x, y) != s.w.pic.Get(x, y) && !Repaints(s, d, rle, x, y))
  {
    hide ParseUpdate, ExecuteAll, Composite.Good, Drawn, Composite.OrderRegion, LinesDrawable, Picture.Get;
    AllCovered(s.w, ParseUpdate(s.st, d).actions, rle);
    var p := Processed(s.st, s.w, d, rle);
    if p.2.Ok? {
      DrawnMirrors(s.v, s.w.pic, p.1.pic, p.2.value.dirty, x, y);
    }
  }

  /** Every update of the run, on the session as the updates before left it. */
  ghost predicate AllDrawable(s: Session, ds: seq<seq<byte>>, rle: RleCodec)
    requires s.Valid()
  {
    forall i :: 0 <= i < |ds| ==> DrawableAt(s, ds, i, rle)
  }

  ghost predicate DrawableAt(s: Session, ds: seq<seq<byte>>, i: nat, rle: RleCodec)
    requires s.Valid() && i < |ds|
  {
    Drawable(Turns(s, ds[..i], rle), ds[i])
  }

  ghost predicate DecodesAt(s: Session, ds: seq<seq<byte>>, i: nat, rle: RleCodec)
    requires s.Valid() && i < |ds|
  {
    Decodes(Turns(s, ds[..i], rle), ds[i], rle)
  }

  ghost predicate AllDecode(s: Session, ds: seq<seq<byte>>, rle: RleCodec)
    requires s.Valid()
  {
    forall i :: 0 <= i < |ds| ==> DecodesAt(s, ds, i, rle)
  }

  ghost predicate SpoilsAt(s: Session, ds: seq<seq<byte>>, i: nat, rle: RleCodec, x: int, y: int)
    requires s.Valid() && i < |ds|
  {
    Spoils(Turns(s, ds[..i], rle), ds[i], rle, x, y)
  }

  ghost predicate RepaintsAt(s: Session, ds: seq<seq<byte>>, i: nat, rle: RleCodec, x: int, y: int)
    requires s.Valid() && i < |ds|
  {
    Repaints(Turns(s, ds[..i], rle), ds[i], rle, x, y)
  }

  /** The i-th update failed after drawing around the pixel, and none since has repainted it. */
  ghost predicate StaleSince(s: Session, ds: seq<seq<byte>>, i: nat, rle: RleCodec, x: int, y: int)
    requires s.Valid() && i < |ds|
  {
    SpoilsAt(s, ds, i, rle, x, y) && forall j :: i < j < |ds| ==> !RepaintsAt(s, ds, j, rle, x, y)
  }

  ghost predicate Stale(s: Session, ds: seq<seq<byte>>, rle: RleCodec, x: int, y: int)
    requires s.Valid()
  {
    exists i :: 0 <= i < |ds| && StaleSince(s, ds, i, rle, x, y)
  }

  /** What held of an update in a run holds of it in a longer run. */
  lemma SamePrefix(s: Session, ds: seq<seq<byte>>, i: nat, rle: RleCodec, x: int, y: int)
    requires s.Valid() && i < |ds| - 1
    ensures var rest := ds[..|ds| - 1];
            && DrawableAt(s, ds, i, rle) == DrawableAt(s, rest, i, rle)
            && DecodesAt(s, ds, i, rle) == DecodesAt(s, rest, i, rle)
            && SpoilsAt(s, ds, i, rle, x, y) == SpoilsAt(s, rest, i, rle, x, y)
            && RepaintsAt(s, ds, i, rle, x, y) == RepaintsAt(s, rest, i, rle, x, y)
  {
    hide Turns, Spoils, Repaints, Drawable, Decodes;
    assert ds[..|ds| - 1][..i] == ds[..i];
  }

  lemma LastAt(s: Session, ds: seq<seq<byte>>, rle: RleCodec, x: int, y: int)
    requires s.Valid() && ds != []
    ensures var (t, n) := (Turns(s, ds[..|ds| - 1], rle), |ds| - 1);
            && Turns(s, ds, rle) == Turn(t, ds[n], rle)
            && DrawableAt(s, ds, n, rle) == Drawable(t, ds[n])
            && DecodesAt(s, ds, n, rle) == Decodes(t, ds[n], rle)
            && SpoilsAt(s, ds, n, rle, x, y) == Spoils(t, ds[n], rle, x, y)
            && RepaintsAt(s, ds, n, rle, x, y) == Repaints(t, ds[n], rle, x, y)
  {
    hide Turn, Spoils, Repaints, Drawable, Decodes;
  }

  lemma StaleNext(s: Session, ds: seq<seq<byte>>, rle: RleCodec, x: int, y: int)
    requires s.Valid() && ds != []
    requires || SpoilsAt(s, ds, |ds| - 1, rle, x, y)
             || (Stale(s, ds[..|ds| - 1], rle, x, y) && !RepaintsAt(s, ds, |ds| - 1, rle, x, y))
    ensures Stale(s, ds, rle, x, y)
  {
    hide SpoilsAt, RepaintsAt, DrawableAt;
    var n, rest := |ds| - 1, ds[..|ds| - 1];
    if SpoilsAt(s, ds, n, rle, x, y) {
      assert StaleSince(s, ds, n, rle, x, y);
    } else {
      var i :| 0 <= i < |rest| && StaleSince(s, rest, i, rle, x, y);
      forall j | i <= j < n
        ensures SpoilsAt(s, ds, j, rle, x, y) == SpoilsAt(s, rest, j, rle, x, y)
        ensures RepaintsAt(s, ds, j, rle, x, y) == RepaintsAt(s, rest, j, rle, x, y)
      {
        SamePrefix(s, ds, j, rle, x, y);
      }
      assert StaleSince(s, ds, i, rle, x, y);
    }
  }

  /** A run goes on with one more update. */
  lemma LongerDrawable(s: Session, ds: seq<seq<byte>>, rle: RleCodec)
    requires s.Valid() && ds != []
    requires AllDrawable(s, ds[..|ds| - 1], rle) && Drawable(Turns(s, ds[..|ds| - 1], rle), ds[|ds| - 1])
    ensures AllDrawable(s, ds, rle)
  {
    hide Turns, Drawable, DrawableAt, DecodesAt, SpoilsAt, RepaintsAt, Spoils, Repaints, Decodes, Session.Valid;
    var rest := ds[..|ds| - 1];
    LastAt(s, ds, rle, 0, 0);
    forall i | 0 <= i < |ds|
      ensures DrawableAt(s, ds, i, rle)
    {
      if i < |rest| {
        SamePrefix(s, ds, i, rle, 0, 0);
        assert DrawableAt(s, rest, i, rle);
      }
    }
  }

  lemma LongerDecodes(s: Session, ds: seq<seq<byte>>, rle: RleCodec)
    requires s.Valid() && ds != []
    requires AllDecode(s, ds[..|ds| - 1], rle) && Decodes(Turns(s, ds[..|ds| - 1], rle), ds[|ds| - 1], rle)
    ensures AllDecode(s, ds, rle)
  {
    hide Turns, Decodes, DecodesAt, DrawableAt, SpoilsAt, RepaintsAt, Spoils, Repaints, Drawable, Session.Valid;
    var rest := ds[..|ds| - 1];
    LastAt(s, ds, rle, 0, 0);
    forall i | 0 <= i < |ds|
      ensures DecodesAt(s, ds, i, rle)
    {
      if i < |rest| {
        SamePrefix(s, ds, i, rle, 0, 0);
        assert DecodesAt(s, rest, i, rle);
      }
    }
  }

  lemma RestDrawable(s: Session, ds: seq<seq<byte>>, rle: RleCodec)
    requires s.Valid() && ds != [] && AllDrawable(s, ds, rle)
    ensures AllDrawable(s, ds[..|ds| - 1], rle) && Drawable(Turns(s, ds[..|ds| - 1], rle), ds[|ds| - 1])
  {
    hide DrawableAt, Turns, Drawable;
    var rest := ds[..|ds| - 1];
    forall i | 0 <= i < |rest|
      ensures DrawableAt(s, rest, i, rle)
    {
      SamePrefix(s, ds, i, rle, 0, 0);
    }
    LastAt(s, ds, rle, 0, 0);
    assert DrawableAt(s, ds, |ds| - 1, rle);
  }

  lemma {:induction false} RunFits(s: Session, ds: seq<seq<byte>>, rle: RleCodec)
    requires s.Level() && AllDrawable(s, ds, rle)
    ensures Turns(s, ds, rle).Fitted() && SameSize(s.w.pic, Turns(s, ds, rle).w.pic)
    decreases |ds|
  {
    hide Turn, Composite.Good, AllDrawable, Drawable;
    if ds != [] {
      RestDrawable(s, ds, rle);
      RunFits(s, ds[..|ds| - 1], rle);
      TurnFits(Turns(s, ds[..|ds| - 1], rle), ds[|ds| - 1], rle);
    }
  }

  /** Every run, failing updates included: wherever composite and canvas differ, some failed update has drawn around
      that pixel, and no update since whose region holds it decoded. */
  lemma {:induction false} DifferencesAreStale(s: Session, ds: seq<seq<byte>>, rle: RleCodec, x: int, y: int)
    requires s.Level() && AllDrawable(s, ds, rle) && s.w.pic.Inside(x, y)
    ensures var r := Turns(s, ds, rle); r.v.composite.Get(x, y) != r.w.pic.Get(x, y) ==> Stale(s, ds, rle, x, y)
    decreases |ds|
  {
    hide Turn, Composite.Good, Stale, AllDrawable, Drawable, Picture.Get, Spoils, Repaints, SpoilsAt, RepaintsAt;
    if ds != [] {
      var rest, last := ds[..|ds| - 1], ds[|ds| - 1];
      RestDrawable(s, ds, rle);
      DifferencesAreStale(s, rest, rle, x, y);
      RunFits(s, rest, rle);
      var t := Turns(s, rest, rle);
      TurnDiffers(t, last, rle, x, y);
      LastAt(s, ds, rle, x, y);
      if Turns(s, ds, rle).v.composite.Get(x, y) != Turns(s, ds, rle).w.pic.Get(x, y) {
        StaleNext(s, ds, rle, x, y);
      }
    }
  }

  lemma NotStale(s: Session, ds: seq<seq<byte>>, rle: RleCodec, x: int, y: int)
    requires s.Valid() && AllDecode(s, ds, rle)
    ensures !Stale(s, ds, rle, x, y)
  {
    hide Turns, Decodes, DirtyRect;
    forall i | 0 <= i < |ds|
      ensures !StaleSince(s, ds, i, rle, x, y)
    {
      assert DecodesAt(s, ds, i, rle);
    }
  }

  /** For every run of Orders updates that all decode, the composite stays equal to the canvas: the dirty
      rectangles lose nothing, and a flush and a repaint at any time put on screen exactly what was drawn. */
  lemma CompositeIsCanvas(s: Session, ds: seq<seq<byte>>, rle: RleCodec)
    requires s.Level() && AllDrawable(s, ds, rle) && AllDecode(s, ds, rle)
    ensures var r := Turns(s, ds, rle);
            r.Level() && forall resync :: r.v.pending.Some? ==>
              Composite.Step(Composite.Step(r.v, Composite.Flush(resync)), Composite.Repaint).texture == r.w.pic
  {
    hide Turns, Composite.Good, AllDrawable, Picture.Get, AllDecode, Stale;
    var r := Turns(s, ds, rle);
    RunFits(s, ds, rle);
    forall x, y | r.w.pic.Inside(x, y)
      ensures r.v.composite.Get(x, y) == r.w.pic.Get(x, y)
    {
      DifferencesAreStale(s, ds, rle, x, y);
      NotStale(s, ds, rle, x, y);
    }
    SamePicture(r.v.composite, r.w.pic);
    Composite.FlushedAndShown(r.v);
  }

  // ---- When a failing update does harm ---------------------------------------------------------------

  /** Whatever the canvas shows, the session stays level under the update. */
  ghost predicate StaysLevel(st: Sticky, w: World, d: seq<byte>, rle: RleCodec) {
    forall s: Session :: s.Level() && s.st == st && Alike(s.w, w) ==> Turn(s, d, rle).Level()
  }

  /** A failing update does no harm, on any contents of the canvas, if and only if no action before its error paints any
      pixel. That is told from the update, the sticky state, the caches and the size of the canvas. */
  lemma FailedUpdateLevelIff(st: Sticky, w: World, d: seq<byte>, rle: RleCodec)
    requires st.Valid() && w.Valid() && ParseUpdate(st, d).result.Err?
    ensures StaysLevel(st, w, d, rle)
            <==> forall x, y :: w.pic.Inside(x, y) ==> !StreamPaints(w, ParseUpdate(st, d).actions, rle, x, y)
  {
    hide ParseUpdate, StreamPaints, Turn, Composite.Good, World.Valid, Picture.Get;
    var actions := ParseUpdate(st, d).actions;
    if x, y :| w.pic.Inside(x, y) && StreamPaints(w, actions, rle, x, y) {
      var s := Cleared(st, w);
      PaintedNotLevel(s, w, d, rle, x, y);
    } else {
      forall s: Session | s.Level() && s.st == st && Alike(s.w, w)
        ensures Turn(s, d, rle).Level()
      {
        UnpaintedLevel(s, w, d, rle);
      }
    }
  }

  /** A session that shows a cleared canvas. */
  ghost function Cleared(st: Sticky, w: World): (s: Session)
    requires st.Valid() && w.Valid()
    ensures s.Level() && s.st == st && Alike(s.w, w)
    ensures forall x, y :: w.pic.Inside(x, y) ==> s.w.pic.Get(x, y).a == 0
  {
    var p := Blank(w.pic.width, w.pic.height);
    assert forall x, y :: w.pic.Inside(x, y) ==> p.Get(x, y).a == 0 by {
      forall x, y | w.pic.Inside(x, y)
        ensures p.Get(x, y).a == 0
      {
        IndexInside(p.width, p.height, x, y);
      }
    }
    Session(st, w.(pic := p), Composite.View(p, None, Composite.Shown(p, None, false), p))
  }

  lemma PaintedNotLevel(s: Session, w: World, d: seq<byte>, rle: RleCodec, x: int, y: int)
    requires s.Level() && w.Valid() && Alike(s.w, w) && ParseUpdate(s.st, d).result.Err? && w.pic.Inside(x, y)
    requires s.w.pic.Get(x, y).a == 0 && StreamPaints(w, ParseUpdate(s.st, d).actions, rle, x, y)
    ensures !Turn(s, d, rle).Level()
  {
    hide ParseUpdate, StreamPaints, ExecuteAll, Composite.Good, Picture.Get;
    SamePixels(s.w, w, ParseUpdate(s.st, d).actions, rle, x, y);
    StreamPaintsExactly(s.w, ParseUpdate(s.st, d).actions, rle, x, y);
  }

  lemma UnpaintedLevel(s: Session, w: World, d: seq<byte>, rle: RleCodec)
    requires s.Level() && w.Valid() && Alike(s.w, w) && ParseUpdate(s.st, d).result.Err?
    requires forall x, y :: w.pic.Inside(x, y) ==> !StreamPaints(w, ParseUpdate(s.st, d).actions, rle, x, y)
    ensures Turn(s, d, rle).Level()
  {
    hide ParseUpdate, StreamPaints, ExecuteAll, Composite.Good, Picture.Get;
    var actions := ParseUpdate(s.st, d).actions;
    var q := ExecuteAll(s.w, actions, rle).0.pic;
    forall x, y | q.Inside(x, y)
      ensures q.Get(x, y) == s.w.pic.Get(x, y)
    {
      SamePixels(s.w, w, actions, rle, x, y);
      StreamPaintsExactly(s.w, actions, rle, x, y);
    }
    SamePicture(q, s.w.pic);
  }

  // ---- An update that fails after it has drawn ---------------------------------------------------------

  /** Two orders: the current rectangle again, with no field changed, and one of a type that does not exist. */
  const DRAWS_THEN_FAILS: seq<byte> := [2, 0, 0x01, 0x00, 0x09, 0xFF]

  lemma {:induction false} NothingFlagged(l: Layout, k: nat, vals: seq<Value>, delta: bool, d: seq<byte>, pos: nat)
    requires k <= |l| == |vals| && pos <= |d|
    ensures Upto(l, k, vals, 0, delta, d, pos) == Decoding(vals, pos, None)
    decreases k
  {
    hide BitSet, ReadKind;
    if k > 0 {
      NothingFlagged(l, k - 1, vals, delta, d, pos);
      NoBitSet(l[k - 1].bit);
    }
  }

  lemma NoBitSet(bit: nat)
    ensures !BitSet(0, bit)
  {
  }

  /** The first order is the sticky rectangle, unclipped. */
  lemma SameRectangle(st: Sticky)
    requires st.Valid() && st.orderType == Some(OPAQUE_RECT)
    ensures TakePrimary(st, 0x01, DRAWS_THEN_FAILS, 3)
            == (st, Ok(Taken(Primary(OPAQUE_RECT, st.fields[OPAQUE_RECT], None), 4)))
  {
    hide Upto, LayoutOf;
    var d := DRAWS_THEN_FAILS;
    assert LayoutOf(OPAQUE_RECT).Some? by { HasLayout(); }
    assert FieldBytes(OPAQUE_RECT) == Some(1) && FlagBytes(0x01, 1) == 1;
    assert TakeFlags(d, 4, 0) == Ok(Taken(0, 4));
    assert TakeFlags(d, 3, 1) == Ok(Taken(0, 4));
    NothingFlagged(LayoutOf(OPAQUE_RECT).value, |LayoutOf(OPAQUE_RECT).value|, st.fields[OPAQUE_RECT], false, d, 4);
    assert st.fields[OPAQUE_RECT := st.fields[OPAQUE_RECT]] == st.fields;
  }

  lemma HasLayout()
    ensures LayoutOf(OPAQUE_RECT).Some?
  {
  }

  /** The second has no known type. */
  lemma NoSuchType(st: Sticky)
    requires st.Valid()
    ensures TakePrimary(st, 0x09, DRAWS_THEN_FAILS, 5).1 == Err(UnsupportedOrderType(0xFF))
  {
    hide TakeBody, TakeFlags;
  }

  lemma ParsesToOne(st: Sticky)
    requires st.Valid() && st.orderType == Some(OPAQUE_RECT)
    ensures var p := ParseUpdate(st, DRAWS_THEN_FAILS);
            p.actions == [Render(Primary(OPAQUE_RECT, st.fields[OPAQUE_RECT], None))]
                && p.result == Err(UnsupportedOrderType(0xFF))
  {
    hide Parse, Sticky.Valid, TakePrimary, TakeSecondary, AltSize;
    var d := DRAWS_THEN_FAILS;
    SameRectangle(st);
    NoSuchType(st);
    assert TakeU16(d, 0) == Ok(Taken(2, 2));
    ParseStep(st, d, 2, 2, 0, 0);
    ParseStep(st, d, 4, 2, 1, 0);
  }

  /** What it drew stays off the composite, and nothing becomes pending for it. */
  lemma FailedUpdateStaysHidden(s: Session, rle: RleCodec, x: nat, y: nat)
    requires s.Level() && s.st.orderType == Some(OPAQUE_RECT) && s.w.pic.Inside(x, y)
    requires var v := s.st.fields[OPAQUE_RECT];
             RectAt(v, 0).Has(x, y) && s.w.pic.Get(x, y) != Rgba(ByteAt(v, 4), ByteAt(v, 5), ByteAt(v, 6), 255)
    ensures var r := Turn(s, DRAWS_THEN_FAILS, rle);
            r.w.pic.Inside(x, y) && r.v == s.v && r.v.composite.Get(x, y) != r.w.pic.Get(x, y)
  {
    hide ParseUpdate, DrawOrder, Composite.Good, Picture.Get;
    var o := Primary(OPAQUE_RECT, s.st.fields[OPAQUE_RECT], None);
    ParsesToOne(s.st);
    ExecuteOne(s.w, o, rle);
    FillPixels(s.w, o, x, y);
    DrawKeepsValid(s.w, o);
  }

  lemma ExecuteOne(w: World, o: Primary, rle: RleCodec)
    requires w.Valid()
    ensures ExecuteAll(w, [Render(o)], rle).0 == DrawOrder(w, o).0
  {
    hide DrawOrder;
    assert [Render(o)][..0] == [];
  }
}
