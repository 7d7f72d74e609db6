/**
 Screen-to-screen copy. The documented intent is an overlap-safe copy; the scan direction that the
 code picks reads every overlapped pixel after it was overwritten. Both readings are stated here.
 */
module ScreenCopy {
  import opened Options
  import opened Rects
  import opened Pictures

  /** The destination pixels of the clip whose source lies on the canvas. */
  function Window(width: nat, height: nat, clip: Rect, dx: int, dy: int): Rect {
    var (l, t) := (Max(clip.x, -dx), Max(clip.y, -dy));
    Rect(l, t, Min(clip.x + clip.w, width - dx) - l, Min(clip.y + clip.h, height - dy) - t)
  }

  lemma WindowExact(width: nat, height: nat, clip: Rect, dx: int, dy: int, x: int, y: int)
    ensures Window(width, height, clip, dx, dy).Has(x, y)
            <==> clip.Has(x, y) && 0 <= x + dx < width && 0 <= y + dy < height
  {
  }

  /** The copy as documented: every pixel takes the colour its source had before the call. */
  function SimultaneousPaint(p: Picture, r: Rect, dx: int, dy: int): Paint
    requires p.Valid()
  {
    (x: int, y: int) => if r.Has(x, y) then Some(Opaque(p.Get(x + dx, y + dy))) else None
  }

  /** Steps left until a walk by (dx, dy) leaves the rectangle. */
  function StepsLeft(r: Rect, dx: int, dy: int, x: int, y: int): int {
    if dx > 0 then r.x + r.w - x else if dx < 0 then x - r.x + 1
    else if dy > 0 then r.y + r.h - y else y - r.y + 1
  }

  /** First point outside the rectangle on the walk by (dx, dy) from (x, y). */
  function WalkOut(r: Rect, dx: int, dy: int, x: int, y: int): (e: (int, int))
    requires (dx, dy) != (0, 0) && r.Has(x, y)
    ensures !r.Has(e.0, e.1)
    decreases StepsLeft(r, dx, dy, x, y)
  {
    if r.Has(x + dx, y + dy) then WalkOut(r, dx, dy, x + dx, y + dy) else (x + dx, y + dy)
  }

  /** The copy as coded: the colour is smeared from the first point of the walk outside the copied window. */
  function CodedPaint(p: Picture, r: Rect, dx: int, dy: int): Paint
    requires p.Valid()
  {
    (x: int, y: int) =>
      if !r.Has(x, y) then None
      else if (dx, dy) == (0, 0) then Some(Opaque(p.Get(x, y)))
      else var e := WalkOut(r, dx, dy, x, y); Some(Opaque(p.Get(e.0, e.1)))
  }

  // ---- Scans ------------------------------------------------------------------------

  /** (a, b) is visited before (x, y) by a scan with the given reversals. */
  ghost predicate Before(reverseX: bool, reverseY: bool, a: int, b: int, x: int, y: int) {
    (if reverseY then b > y else b < y) || (b == y && if reverseX then a > x else a < x)
  }

  /** Reading through partly copied pixels, a scan in this order produces the paint `f`. */
  ghost predicate ScanYields(p: Picture, f: Paint, r: Rect, dx: int, dy: int, reverseX: bool, reverseY: bool) {
    && p.Valid()
    && (forall x, y :: f(x, y).Some? ==> r.Has(x, y))
    && forall x, y :: r.Has(x, y) ==>
         && f(x, y).Some? && Opaque(f(x, y).value) == f(x, y).value
         && var (sx, sy) := (x + dx, y + dy);
           f(x, y) == if r.Has(sx, sy) && Before(reverseX, reverseY, sx, sy, x, y) then f(sx, sy)
                      else Some(Opaque(p.Get(sx, sy)))
  }

  lemma CodedScan(p: Picture, r: Rect, dx: int, dy: int)
    requires p.Valid()
    ensures ScanYields(p, CodedPaint(p, r, dx, dy), r, dx, dy, dx > 0, dy > 0)
  {
    hide Picture.Get, WalkOut, Picture.Valid, CodedPaint, Opaque;
    var f := CodedPaint(p, r, dx, dy);
    forall x, y
      ensures f(x, y).Some? ==> r.Has(x, y)
    {
      CodedOutside(p, r, dx, dy, x, y);
    }
    forall x, y | r.Has(x, y)
      ensures f(x, y).Some? && Opaque(f(x, y).value) == f(x, y).value
      ensures f(x, y) == if r.Has(x + dx, y + dy) && Before(dx > 0, dy > 0, x + dx, y + dy, x, y) then f(x + dx, y + dy)
                         else Some(Opaque(p.Get(x + dx, y + dy)))
    {
      CodedAt(p, r, dx, dy, x, y);
    }
  }

  lemma CodedOutside(p: Picture, r: Rect, dx: int, dy: int, x: int, y: int)
    requires p.Valid()
    ensures CodedPaint(p, r, dx, dy)(x, y).Some? ==> r.Has(x, y)
  {
  }

  /** A scan towards the source finds it overwritten, whenever it lies in the window. */
  lemma CodedAt(p: Picture, r: Rect, dx: int, dy: int, x: int, y: int)
    requires p.Valid() && r.Has(x, y)
    ensures var f := CodedPaint(p, r, dx, dy);
            && f(x, y).Some? && Opaque(f(x, y).value) == f(x, y).value
            && f(x, y) == if r.Has(x + dx, y + dy)
                && Before(dx > 0, dy > 0, x + dx, y + dy, x, y) then f(x + dx, y + dy)
                          else Some(Opaque(p.Get(x + dx, y + dy)))
  {
    hide Picture.Get, Picture.Valid, WalkOut;
    if (dx, dy) != (0, 0) {
      WalkOutStep(r, dx, dy, x, y);
    }
  }

  lemma WalkOutStep(r: Rect, dx: int, dy: int, x: int, y: int)
    requires (dx, dy) != (0, 0) && r.Has(x, y)
    ensures WalkOut(r, dx, dy, x, y) == if r.Has(x + dx, y + dy) then WalkOut(r, dx, dy, x + dx, y + dy)
            else (x + dx, y + dy)
  {
  }

  /** Scanning away from the source, an overlap-safe copy is obtained. */
  lemma IntendedScan(p: Picture, r: Rect, dx: int, dy: int)
    requires p.Valid()
    ensures ScanYields(p, SimultaneousPaint(p, r, dx, dy), r, dx, dy, dx < 0, dy < 0)
  {
  }

  // ---- When the coded copy is the documented one --------------------------------------

  /** The copied window and its source are disjoint, or nothing moves. */
  predicate NoOverlap(r: Rect, dx: int, dy: int) {
    (dx, dy) == (0, 0) || r.IsEmpty() || dx <= -r.w || r.w <= dx || dy <= -r.h || r.h <= dy
  }

  lemma WalkOutInside(width: nat, height: nat, clip: Rect, dx: int, dy: int, x: int, y: int)
    requires (dx, dy) != (0, 0)
    requires var r := Window(width, height, clip, dx, dy); r.Has(x, y)
    ensures var e := WalkOut(Window(width, height, clip, dx, dy), dx, dy, x, y);
            0 <= e.0 < width && 0 <= e.1 < height
    decreases StepsLeft(Window(width, height, clip, dx, dy), dx, dy, x, y)
  {
    var r := Window(width, height, clip, dx, dy);
    if r.Has(x + dx, y + dy) {
      WalkOutInside(width, height, clip, dx, dy, x + dx, y + dy);
    }
  }

  ghost predicate AlwaysSimultaneous(width: nat, height: nat, r: Rect, dx: int, dy: int) {
    forall p: Picture :: p.Valid() && p.width == width && p.height == height ==>
      Painted(p, CodedPaint(p, r, dx, dy)) == Painted(p, SimultaneousPaint(p, r, dx, dy))
  }

  /** On all canvas contents the coded copy meets the documented one exactly when the window does not overlap its
      source. */
  lemma CodedIsSimultaneousIff(width: nat, height: nat, clip: Rect, dx: int, dy: int)
    requires width < 0x1_0000 && height < 0x1_0000
    requires !clip.IsEmpty() ==> 0 <= clip.x && 0 <= clip.y && clip.x + clip.w <= width && clip.y + clip.h <= height
    ensures var r := Window(width, height, clip, dx, dy);
            AlwaysSimultaneous(width, height, r, dx, dy) <==> NoOverlap(r, dx, dy)
  {
    hide Painted, WalkOut, Picture.Get;
    var r := Window(width, height, clip, dx, dy);
    if NoOverlap(r, dx, dy) {
      forall p: Picture | p.Valid() && p.width == width && p.height == height
        ensures Painted(p, CodedPaint(p, r, dx, dy)) == Painted(p, SimultaneousPaint(p, r, dx, dy))
      {
        NoOverlapSame(p, r, dx, dy);
      }
    } else {
      var p, x, y := Smeared(width, height, clip, dx, dy);
      WindowExact(width, height, clip, dx, dy, x, y);
      OverlapDiffers(p, r, dx, dy, x, y);
    }
  }

  lemma NoOverlapSame(p: Picture, r: Rect, dx: int, dy: int)
    requires p.Valid() && NoOverlap(r, dx, dy)
    ensures Painted(p, CodedPaint(p, r, dx, dy)) == Painted(p, SimultaneousPaint(p, r, dx, dy))
  {
    hide Painted, Picture.Get;
    SamePaints(p, CodedPaint(p, r, dx, dy), SimultaneousPaint(p, r, dx, dy));
  }

  lemma OverlapDiffers(p: Picture, r: Rect, dx: int, dy: int, x: int, y: int)
    requires p.Valid() && p.Inside(x, y) && r.Has(x, y) && (dx, dy) != (0, 0)
    requires var e := WalkOut(r, dx, dy, x, y); p.Get(e.0, e.1).r != p.Get(x + dx, y + dy).r
    ensures Painted(p, CodedPaint(p, r, dx, dy)) != Painted(p, SimultaneousPaint(p, r, dx, dy))
  {
    hide Painted, Picture.Get, WalkOut;
    PaintedGet(p, CodedPaint(p, r, dx, dy), x, y);
    PaintedGet(p, SimultaneousPaint(p, r, dx, dy), x, y);
  }

  lemma SamePaints(p: Picture, f: Paint, g: Paint)
    requires p.Valid() && forall x, y :: f(x, y) == g(x, y)
    ensures Painted(p, f) == Painted(p, g)
  {
    forall x, y | p.Inside(x, y)
      ensures Painted(p, f).Get(x, y) == Painted(p, g).Get(x, y)
    {
      PaintedGet(p, f, x, y);
      PaintedGet(p, g, x, y);
    }
    SamePicture(Painted(p, f), Painted(p, g));
  }

  /** A canvas on which an overlapping copy goes wrong, and the pixel that shows it. */
  lemma Smeared(width: nat, height: nat, clip: Rect, dx: int, dy: int) returns (p: Picture, x: int, y: int)
    requires width < 0x1_0000 && height < 0x1_0000
    requires !clip.IsEmpty() ==> 0 <= clip.x && 0 <= clip.y && clip.x + clip.w <= width && clip.y + clip.h <= height
    requires !NoOverlap(Window(width, height, clip, dx, dy), dx, dy)
    ensures var r := Window(width, height, clip, dx, dy);
            && p.Valid() && p.width == width && p.height == height && r.Has(x, y) && p.Inside(x, y)
            && (dx, dy) != (0, 0)
            && var e := WalkOut(r, dx, dy, x, y); p.Get(e.0, e.1).r != p.Get(x + dx, y + dy).r
  {
    var r := Window(width, height, clip, dx, dy);
    x := if dx < 0 then r.x - dx else r.x;
    y := if dy < 0 then r.y - dy else r.y;
    WindowExact(width, height, clip, dx, dy, x + dx, y + dy);
    WindowExact(width, height, clip, dx, dy, x, y);
    hide Window, Picture.Get, WalkOut;
    assert r.Has(x, y) && r.Has(x + dx, y + dy);
    WalkOutInside(width, height, clip, dx, dy, x, y);
    var e := WalkOut(r, dx, dy, x, y);
    p := OneSpot(width, height, e.0, e.1, x + dx, y + dy);
  }

  lemma OneSpot(width: nat, height: nat, ex: nat, ey: nat, x: nat, y: nat) returns (p: Picture)
    requires width < 0x1_0000 && height < 0x1_0000 && ex < width && ey < height && x < width && y < height
    requires (ex, ey) != (x, y)
    ensures p.Valid() && p.width == width && p.height == height
    ensures p.Get(ex, ey).r == 255 && p.Get(x, y).r == 0
  {
    hide Painted;
    var dark := Blank(width, height);
    var spot: Paint := (a, b) => if a == ex && b == ey then Some(Rgba(255, 255, 255, 255)) else None;
    p := Painted(dark, spot);
    PaintedGet(dark, spot, ex, ey);
    PaintedGet(dark, spot, x, y);
    IndexInside(width, height, x, y);
  }
}
