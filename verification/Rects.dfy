/** Rectangles with saturating 32-bit edges, as the canvas clips with them. */
module Rects {
  import opened Options

  const MIN32: int := -0x8000_0000
  const MAX32: int := 0x7FFF_FFFF

  const COORD_BOUND: int := 0x3FFF_FFFF

  /** Saturation to a signed 32-bit integer. */
  function Sat(v: int): int {
    if v < MIN32 then MIN32 else if v > MAX32 then MAX32 else v
  }

  function Min(a: int, b: int): int { if a < b then a else b }

  function Max(a: int, b: int): int { if a > b then a else b }

  datatype Rect = Rect(x: int, y: int, w: int, h: int) {
    function Right(): int { Sat(x + w) }

    function Bottom(): int { Sat(y + h) }

    predicate IsEmpty() { w <= 0 || h <= 0 }

    function Intersect(o: Rect): Rect {
      var l, t := Max(x, o.x), Max(y, o.y);
      Rect(l, t, Sat(Min(Right(), o.Right()) - l), Sat(Min(Bottom(), o.Bottom()) - t))
    }

    function Union(o: Rect): Rect {
      if IsEmpty() then o
      else if o.IsEmpty() then this
      else
        var l, t := Min(x, o.x), Min(y, o.y);
        Rect(l, t, Sat(Max(Right(), o.Right()) - l), Sat(Max(Bottom(), o.Bottom()) - t))
    }

    /** Membership over the integers, without saturation. */
    predicate Has(px: int, py: int) { x <= px < x + w && y <= py < y + h }

    /** Pixels within half the 32-bit range, so that no edge or extent saturates, in unions either. */
    predicate Small() {
      -COORD_BOUND <= x && -COORD_BOUND <= y && x + w <= COORD_BOUND + 1 && y + h <= COORD_BOUND + 1
    }
  }

  function FromInclusive(left: int, top: int, right: int, bottom: int): Rect {
    Rect(left, top, Sat(Sat(right - left) + 1), Sat(Sat(bottom - top) + 1))
  }

  /** Clip of a destination to a canvas and an optional bounds rectangle. */
  function Clip(width: nat, height: nat, dst: Rect, bounds: Option<Rect>): Rect {
    var r := dst.Intersect(Rect(0, 0, width, height));
    if bounds.Some? then r.Intersect(bounds.value) else r
  }

  /** Despite the saturation the clip is exact for every pair of rectangles. */
  lemma ClipExact(width: nat, height: nat, dst: Rect, bounds: Option<Rect>, x: int, y: int)
    requires width < 0x1_0000 && height < 0x1_0000
    ensures Clip(width, height, dst, bounds).Has(x, y)
            <==> 0 <= x < width && 0 <= y < height && dst.Has(x, y) && (bounds.Some? ==> bounds.value.Has(x, y))
  {
  }

  /** A non-empty clip lies inside the canvas and its edges are its mathematical ones. */
  lemma ClipInside(width: nat, height: nat, dst: Rect, bounds: Option<Rect>)
    requires width < 0x1_0000 && height < 0x1_0000
    ensures var r := Clip(width, height, dst, bounds);
            !r.IsEmpty() ==>
              0 <= r.x && 0 <= r.y && r.x + r.w <= width && r.y + r.h <= height
              && r.Right() == r.x + r.w && r.Bottom() == r.y + r.h
  {
  }

  /** Inclusive bounds keep their meaning exactly when neither extent saturates (or one side is empty). */
  lemma InclusiveExactIff(l: int, t: int, r: int, b: int)
    requires MIN32 <= l <= MAX32 && MIN32 <= t <= MAX32 && MIN32 <= r <= MAX32 && MIN32 <= b <= MAX32
    ensures (forall x, y :: FromInclusive(l, t, r, b).Has(x, y) <==> l <= x <= r && t <= y <= b)
            <==> r < l || b < t || (r - l < MAX32 && b - t < MAX32)
  {
    var q := FromInclusive(l, t, r, b);
    if !(r < l || b < t) {
      if r - l >= MAX32 {
        assert !q.Has(r, t) && l <= r && t <= b;
      } else if b - t >= MAX32 {
        assert !q.Has(l, b) && l <= r && t <= b;
      }
    }
  }

  /** A union of non-saturating rectangles covers both and stays non-saturating. */
  lemma UnionCovers(a: Rect, b: Rect)
    requires (a.IsEmpty() || a.Small()) && (b.IsEmpty() || b.Small())
    ensures var u := a.Union(b);
            && (u.IsEmpty() || u.Small())
            && (u.IsEmpty() ==> a.IsEmpty() && b.IsEmpty())
            && forall x, y :: a.Has(x, y) || b.Has(x, y) ==> u.Has(x, y)
  {
  }

  /** ... and is the least rectangle that does. */
  lemma UnionLeast(a: Rect, b: Rect, c: Rect)
    requires a.Small() && b.Small() && !a.IsEmpty() && !b.IsEmpty()
    requires forall x, y :: a.Has(x, y) || b.Has(x, y) ==> c.Has(x, y)
    ensures forall x, y :: a.Union(b).Has(x, y) ==> c.Has(x, y)
  {
    assert c.Has(a.x, a.y) && c.Has(a.x + a.w - 1, a.y + a.h - 1);
    assert c.Has(b.x, b.y) && c.Has(b.x + b.w - 1, b.y + b.h - 1);
  }

  /** Both extents of the union fit 32 bits. */
  predicate ExtentsFit(a: Rect, b: Rect) {
    && Max(a.x + a.w, b.x + b.w) - Min(a.x, b.x) <= MAX32
    && Max(a.y + a.h, b.y + b.h) - Min(a.y, b.y) <= MAX32
  }

  /** Of rectangles whose own edges fit 32 bits, a union covers both if and only if its extents do: a rectangle far to
      the left costs the union its right edge. */
  lemma UnionCoversIff(a: Rect, b: Rect)
    requires !a.IsEmpty() && MIN32 <= a.x && a.x + a.w <= MAX32 && MIN32 <= a.y && a.y + a.h <= MAX32
    requires !b.IsEmpty() && MIN32 <= b.x && b.x + b.w <= MAX32 && MIN32 <= b.y && b.y + b.h <= MAX32
    ensures (forall x, y :: a.Has(x, y) || b.Has(x, y) ==> a.Union(b).Has(x, y)) <==> ExtentsFit(a, b)
  {
    var u := a.Union(b);
    if !ExtentsFit(a, b) {
      var c := if Max(a.x + a.w, b.x + b.w) - Min(a.x, b.x) > MAX32 then (if a.x + a.w >= b.x + b.w then a else b)
               else if a.y + a.h >= b.y + b.h then a else b;
      assert c.Has(c.x + c.w - 1, c.y + c.h - 1) && !u.Has(c.x + c.w - 1, c.y + c.h - 1);
    }
  }
}
