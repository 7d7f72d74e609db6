/** Bresenham lines, clipped pixel by pixel. */
module Lines {
  import opened Options
  import opened Arith
  import opened Rects
  import opened Pictures
  import opened Canvas

  function Abs(v: int): (a: int)
    ensures a >= 0
  {
    if v < 0 then -v else v
  }

  /** `i` horizontal and `j` vertical steps taken; `e` is the deviation dx * j - dy * i from the ideal line. */
  datatype Steps = Steps(i: nat, j: nat, e: int)

  /** One turn of the loop, in terms of its error variable err = e + dx - dy (dx, dy absolute differences). */
  function Step(dx: int, dy: int, s: Steps): Steps {
    var e2 := 2 * (s.e + dx - dy);
    var horizontal, vertical := e2 >= -dy, e2 <= dx;
    Steps(if horizontal then s.i + 1 else s.i, if vertical then s.j + 1 else s.j,
          s.e - (if horizontal then dy else 0) + (if vertical then dx else 0))
  }

  function StepsAfter(dx: int, dy: int, n: nat): Steps {
    if n == 0 then Steps(0, 0, 0) else Step(dx, dy, StepsAfter(dx, dy, n - 1))
  }

  function Longest(dx: int, dy: int): int { if dx > dy then dx else dy }

  /** Within half a pixel of the ideal, at exactly half the later row or column: this determines the shorter axis. */
  predicate Rounded(dx: int, dy: int, e: int) {
    if dx == 0 && dy == 0 then e == 0 else if dx >= dy then -dx < 2 * e <= dx else -dy <= 2 * e < dy
  }

  /** The longer axis advances every turn, the shorter one is the rounded ideal, and neither overshoots. */
  lemma {:induction false} StepsInvariant(dx: int, dy: int, n: nat)
    requires dx >= 0 && dy >= 0 && n <= Longest(dx, dy)
    ensures var s := StepsAfter(dx, dy, n);
            && s.e == dx * s.j - dy * s.i && Rounded(dx, dy, dx * s.j - dy * s.i)
            && (dx >= dy ==> s.i == n) && (dy >= dx ==> s.j == n)
            && s.i <= dx && s.j <= dy
    decreases n
  {
    hide StepsAfter;
    if n == 0 {
      NoSteps(dx, dy);
    } else {
      StepsInvariant(dx, dy, n - 1);
      NextSteps(dx, dy, n - 1);
      StepKeeps(dx, dy, n - 1, StepsAfter(dx, dy, n - 1));
    }
  }

  lemma StepKeeps(dx: int, dy: int, n: nat, s: Steps)
    requires dx >= 0 && dy >= 0 && n < Longest(dx, dy)
    requires s.e == dx * s.j - dy * s.i && Rounded(dx, dy, s.e)
    requires (dx >= dy ==> s.i == n) && (dy >= dx ==> s.j == n) && s.i <= dx && s.j <= dy
    ensures var t := Step(dx, dy, s);
            && t.e == dx * t.j - dy * t.i && Rounded(dx, dy, t.e)
            && (dx >= dy ==> t.i == n + 1) && (dy >= dx ==> t.j == n + 1)
            && t.i <= dx && t.j <= dy
  {
    NextDeviation(dx, dy, s.i, s.j);
    NoOvershoot(dx, dy, s);
  }

  lemma NextDeviation(dx: int, dy: int, i: int, j: int)
    ensures dx * (j + 1) == dx * j + dx && dy * (i + 1) == dy * i + dy
  {
  }

  /** The shorter axis stops at its end: the deviation there rules out another step. */
  lemma NoOvershoot(dx: int, dy: int, s: Steps)
    requires dx >= 0 && dy >= 0 && s.e == dx * s.j - dy * s.i && s.i <= dx && s.j <= dy
    ensures s.i == dx && s.j < dy ==> s.e + dx - dy <= -dy
    ensures s.j == dy && s.i < dx ==> s.e + dx - dy >= dx
  {
    if s.i == dx && s.j < dy {
      Remaining(dx, dy, s.j);
    }
    if s.j == dy && s.i < dx {
      Remaining(dy, dx, s.i);
    }
  }

  lemma Remaining(d: int, total: int, k: int)
    requires d >= 0 && k < total
    ensures d * total - d * k >= d && d * total == total * d
  {
    MulLe(d, 1, total - k);
    assert d * total - d * k == d * (total - k);
  }

  function PointAt(x0: int, y0: int, x1: int, y1: int, n: nat): (int, int) {
    var s := StepsAfter(Abs(x1 - x0), Abs(y1 - y0), n);
    (if x0 < x1 then x0 + s.i else x0 - s.i, if y0 < y1 then y0 + s.j else y0 - s.j)
  }

  lemma PointOfSteps(x0: int, y0: int, x1: int, y1: int, n: nat)
    ensures var s := StepsAfter(Abs(x1 - x0), Abs(y1 - y0), n);
            PointAt(x0, y0, x1, y1, n)
            == (if x0 < x1 then x0 + s.i else x0 - s.i, if y0 < y1 then y0 + s.j else y0 - s.j)
  {
    hide StepsAfter;
  }

  function LineLength(x0: int, y0: int, x1: int, y1: int): (m: int)
    ensures m >= 0
  {
    Longest(Abs(x1 - x0), Abs(y1 - y0))
  }

  /** The points visited run from start to end inside the bounding box, and only the last one is the end. */
  lemma PointsFromStartToEnd(x0: int, y0: int, x1: int, y1: int, n: nat)
    requires n <= LineLength(x0, y0, x1, y1)
    ensures var (x, y) := PointAt(x0, y0, x1, y1, n);
            && Min(x0, x1) <= x <= Max(x0, x1) && Min(y0, y1) <= y <= Max(y0, y1)
            && ((x, y) == (x1, y1) <==> n == LineLength(x0, y0, x1, y1))
    ensures PointAt(x0, y0, x1, y1, 0) == (x0, y0)
  {
    hide StepsAfter;
    var dx, dy := Abs(x1 - x0), Abs(y1 - y0);
    StepsInvariant(dx, dy, n);
    var s := StepsAfter(dx, dy, n);
    if n == Longest(dx, dy) {
      LastStep(dx, dy, s);
    }
    assert StepsAfter(dx, dy, 0) == Steps(0, 0, 0) by { NoSteps(dx, dy); }
  }

  lemma NoSteps(dx: int, dy: int)
    ensures StepsAfter(dx, dy, 0) == Steps(0, 0, 0)
  {
  }

  lemma NextSteps(dx: int, dy: int, n: nat)
    ensures StepsAfter(dx, dy, n + 1) == Step(dx, dy, StepsAfter(dx, dy, n))
  {
  }

  lemma LastStep(dx: int, dy: int, s: Steps)
    requires dx >= 0 && dy >= 0 && s.e == dx * s.j - dy * s.i && -Longest(dx, dy) <= 2 * s.e <= Longest(dx, dy)
    requires (dx >= dy ==> s.i == dx) && (dy >= dx ==> s.j == dy) && s.i <= dx && s.j <= dy
    ensures s.i == dx && s.j == dy
  {
    if dx >= dy {
      EndOfShort(dx, dy, s.j, s.e);
    } else {
      EndOfShort(dy, dx, s.i, -s.e);
    }
  }

  /** With the longer axis complete, the bounded deviation leaves no room but the end on the shorter one. */
  lemma EndOfShort(long: int, short: int, k: int, e: int)
    requires e == long * k - short * long && -long <= 2 * e <= long && 0 <= k <= short <= long
    ensures k == short
  {
    if k < short {
      Remaining(long, short, k);
    }
  }

  /** Distinct turns visit distinct points, so exactly max(|dx|, |dy|) + 1 pixels lie on the line. */
  lemma PointsDistinct(x0: int, y0: int, x1: int, y1: int, m: nat, n: nat)
    requires m < n <= LineLength(x0, y0, x1, y1)
    ensures PointAt(x0, y0, x1, y1, m) != PointAt(x0, y0, x1, y1, n)
  {
    StepsInvariant(Abs(x1 - x0), Abs(y1 - y0), m);
    StepsInvariant(Abs(x1 - x0), Abs(y1 - y0), n);
  }

  // ---- 32-bit arithmetic ---------------------------------------------------------------

  predicate Fits32(v: int) { MIN32 <= v <= MAX32 }

  /** One turn of the loop computes 32-bit values only: the doubled error, the error after either step, the next
      point. */
  predicate TurnFits(x0: int, y0: int, x1: int, y1: int, n: nat) {
    var (dx, dy) := (Abs(x1 - x0), Abs(y1 - y0));
    var err := StepsAfter(dx, dy, n).e + dx - dy;
    && Fits32(2 * err)
    && (2 * err >= -dy ==> Fits32(err - dy))
    && Fits32(StepsAfter(dx, dy, n + 1).e + dx - dy)
    && Fits32(PointAt(x0, y0, x1, y1, n + 1).0) && Fits32(PointAt(x0, y0, x1, y1, n + 1).1)
  }

  /** So does the whole line: the differences, the initial error and every turn before the last point. */
  ghost predicate LineFits(x0: int, y0: int, x1: int, y1: int) {
    var (dx, dy) := (Abs(x1 - x0), Abs(y1 - y0));
    && Fits32(x1 - x0) && Fits32(y1 - y0) && Fits32(dx) && Fits32(dy) && Fits32(dx - dy)
    && forall n: nat :: n < LineLength(x0, y0, x1, y1) ==> TurnFits(x0, y0, x1, y1, n)
  }

  predicate EndsWithin(b: int, x0: int, y0: int, x1: int, y1: int) {
    -b <= x0 <= b && -b <= y0 <= b && -b <= x1 <= b && -b <= y1 <= b
  }

  /** A third of 2^30: three half-lengths of a line across the whole range, doubled, are just below 2^31. */
  const LINE_BOUND: int := 357913941

  lemma NoOverflow(x0: int, y0: int, x1: int, y1: int, n: nat)
    requires EndsWithin(LINE_BOUND, x0, y0, x1, y1) && n < LineLength(x0, y0, x1, y1)
    ensures TurnFits(x0, y0, x1, y1, n)
  {
    hide StepsAfter, PointAt;
    var dx, dy := Abs(x1 - x0), Abs(y1 - y0);
    StepsInvariant(dx, dy, n);
    StepsInvariant(dx, dy, n + 1);
    ErrorFits(dx, dy, StepsAfter(dx, dy, n).e);
    ErrorFits(dx, dy, StepsAfter(dx, dy, n + 1).e);
    PointsFromStartToEnd(x0, y0, x1, y1, n + 1);
  }

  lemma ErrorFits(dx: int, dy: int, e: int)
    requires 0 <= dx <= 2 * LINE_BOUND && 0 <= dy <= 2 * LINE_BOUND && -Longest(dx, dy) <= 2 * e <= Longest(dx, dy)
    ensures Fits32(2 * (e + dx - dy)) && Fits32(e + dx - dy - dy) && Fits32(e + dx - dy)
  {
  }

  /** A line of slope 1 / 2h goes straight until just before its middle. */
  lemma {:induction false} StraightToTheMiddle(h: nat, n: nat)
    requires n < h
    ensures StepsAfter(2 * h, 1, n) == Steps(n, 0, 0 - n)
    decreases n
  {
    if n > 0 {
      StraightToTheMiddle(h, n - 1);
    }
  }

  /** There it steps aside, and its error is largest. */
  lemma ErrorAtTheMiddle(h: nat)
    requires h > 0
    ensures StepsAfter(2 * h, 1, h) == Steps(h, 1, h)
  {
    StraightToTheMiddle(h, h - 1);
    NextSteps(2 * h, 1, h - 1);
  }

  /** One pixel beyond the bound a doubled error leaves 32 bits. */
  lemma OverflowBeyondBound()
    ensures var b := LINE_BOUND + 1; !LineFits(-b, 0, b, 1)
  {
    hide StepsAfter;
    var b := LINE_BOUND + 1;
    ErrorAtTheMiddle(b);
    assert !TurnFits(-b, 0, b, 1, b);
  }

  /** All lines with coordinates from -b to b are drawn in 32 bits if and only if b is at most a third of 2^30. */
  lemma LinesFitIff(b: nat)
    ensures (forall x0, y0, x1, y1 :: EndsWithin(b, x0, y0, x1, y1) ==> LineFits(x0, y0, x1, y1)) <==> b <= LINE_BOUND
  {
    hide StepsAfter, TurnFits;
    if b <= LINE_BOUND {
      forall x0, y0, x1, y1 | EndsWithin(b, x0, y0, x1, y1)
        ensures LineFits(x0, y0, x1, y1)
      {
        forall n: nat | n < LineLength(x0, y0, x1, y1)
          ensures TurnFits(x0, y0, x1, y1, n)
        {
          NoOverflow(x0, y0, x1, y1, n);
        }
      }
    } else {
      var c := LINE_BOUND + 1;
      OverflowBeyondBound();
      assert EndsWithin(b, -c, 0, c, 1);
    }
  }

  // ---- Drawing -------------------------------------------------------------------------

  ghost predicate OnLine(x0: int, y0: int, x1: int, y1: int, m: int, x: int, y: int) {
    exists n: nat :: n <= m && PointAt(x0, y0, x1, y1, n) == (x, y)
  }

  /** The pixels of a line, without its loop: `i` columns and `j` rows from the start towards the end, where the shorter
      axis is the rounded ideal. */
  predicate OnIdeal(x0: int, y0: int, x1: int, y1: int, x: int, y: int) {
    var (dx, dy) := (Max(x0, x1) - Min(x0, x1), Max(y0, y1) - Min(y0, y1));
    var (i, j) := (if x0 < x1 then x - x0 else x0 - x, if y0 < y1 then y - y0 else y0 - y);
    0 <= i <= dx && 0 <= j <= dy && Rounded(dx, dy, dx * j - dy * i)
  }

  /** The loop visits exactly the pixels of the rounded ideal line. */
  lemma OnLineIff(x0: int, y0: int, x1: int, y1: int, x: int, y: int)
    ensures OnLine(x0, y0, x1, y1, LineLength(x0, y0, x1, y1), x, y) <==> OnIdeal(x0, y0, x1, y1, x, y)
  {
    hide PointAt, OnIdeal;
    var m := LineLength(x0, y0, x1, y1);
    if n: nat :| n <= m && PointAt(x0, y0, x1, y1, n) == (x, y) {
      PointIsIdeal(x0, y0, x1, y1, n);
    }
    if OnIdeal(x0, y0, x1, y1, x, y) {
      var n := IdealIsPoint(x0, y0, x1, y1, x, y);
    }
  }

  lemma PointIsIdeal(x0: int, y0: int, x1: int, y1: int, n: nat)
    requires n <= LineLength(x0, y0, x1, y1)
    ensures var (x, y) := PointAt(x0, y0, x1, y1, n); OnIdeal(x0, y0, x1, y1, x, y)
  {
    hide StepsAfter, PointAt, Rounded;
    StepsInvariant(Abs(x1 - x0), Abs(y1 - y0), n);
    PointOfSteps(x0, y0, x1, y1, n);
  }

  lemma IdealIsPoint(x0: int, y0: int, x1: int, y1: int, x: int, y: int) returns (n: nat)
    requires OnIdeal(x0, y0, x1, y1, x, y)
    ensures n <= LineLength(x0, y0, x1, y1) && PointAt(x0, y0, x1, y1, n) == (x, y)
  {
    hide StepsAfter, PointAt, Rounded;
    var dx, dy := Abs(x1 - x0), Abs(y1 - y0);
    var i, j := if x0 < x1 then x - x0 else x0 - x, if y0 < y1 then y - y0 else y0 - y;
    n := StepsTo(dx, dy, i, j);
    PointOfSteps(x0, y0, x1, y1, n);
  }

  lemma StepsTo(dx: int, dy: int, i: int, j: int) returns (n: nat)
    requires 0 <= i <= dx && 0 <= j <= dy && Rounded(dx, dy, dx * j - dy * i)
    ensures n <= Longest(dx, dy) && StepsAfter(dx, dy, n).i == i && StepsAfter(dx, dy, n).j == j
  {
    hide StepsAfter, Rounded;
    n := if dx >= dy then i else j;
    StepsInvariant(dx, dy, n);
    var s := StepsAfter(dx, dy, n);
    OneRounded(dx, dy, i, j, s.i, s.j);
  }

  /** For each place on the longer axis there is one on the shorter. */
  lemma OneRounded(dx: int, dy: int, i: int, j: int, i2: int, j2: int)
    requires dx >= 0 && dy >= 0 && Rounded(dx, dy, dx * j - dy * i) && Rounded(dx, dy, dx * j2 - dy * i2)
    requires if dx >= dy then i == i2 else j == j2
    requires dx == 0 && dy == 0 ==> j == j2
    ensures i == i2 && j == j2
  {
    if dx >= dy && dx > 0 {
      Spread(dx, j, j2);
    } else if dx < dy {
      Spread(dy, i, i2);
    }
  }

  lemma Spread(d: int, a: int, b: int)
    requires d > 0
    ensures a < b ==> d * b - d * a >= d
    ensures b < a ==> d * a - d * b >= d
  {
    if a < b {
      MulLe(d, 1, b - a);
      assert d * b - d * a == d * (b - a);
    } else if b < a {
      MulLe(d, 1, a - b);
      assert d * a - d * b == d * (a - b);
    }
  }

  ghost function LinePaint(x0: int, y0: int, x1: int, y1: int, m: int, bounds: Option<Rect>, c: Rgba): Paint {
    (x: int, y: int) =>
      if OnLine(x0, y0, x1, y1, m, x, y) && (bounds.Some? ==> bounds.value.Has(x, y)) then Some(c) else None
  }

  lemma PaintPoint(p: Picture, x0: int, y0: int, x1: int, y1: int, m: nat, bounds: Option<Rect>, c: Rgba)
    requires p.Valid()
    ensures var (x, y) := PointAt(x0, y0, x1, y1, m);
            Painted(Painted(p, LinePaint(x0, y0, x1, y1, m - 1, bounds, c)),
                    Solid(Clip(p.width, p.height, Rect(x, y, 1, 1), bounds), c))
            == Painted(p, LinePaint(x0, y0, x1, y1, m, bounds, c))
  {
    hide Painted, PointAt, Picture.Get, Clip;
    var (x, y) := PointAt(x0, y0, x1, y1, m);
    var f, g := LinePaint(x0, y0, x1, y1, m - 1, bounds, c),
        Solid(Clip(p.width, p.height, Rect(x, y, 1, 1), bounds), c);
    var h := LinePaint(x0, y0, x1, y1, m, bounds, c);
    var q := Painted(Painted(p, f), g);
    forall a, b | p.Inside(a, b)
      ensures q.Get(a, b) == if h(a, b).Some? then Opaque(h(a, b).value) else p.Get(a, b)
    {
      ClipExact(p.width, p.height, Rect(x, y, 1, 1), bounds, a, b);
      PaintedGet(p, f, a, b);
      PaintedGet(Painted(p, f), g, a, b);
      OnLineNext(x0, y0, x1, y1, m, a, b);
    }
    PaintedBy(p, h, q);
  }

  lemma OnLineNext(x0: int, y0: int, x1: int, y1: int, m: nat, x: int, y: int)
    ensures OnLine(x0, y0, x1, y1, m, x, y)
            <==> OnLine(x0, y0, x1, y1, m - 1, x, y) || PointAt(x0, y0, x1, y1, m) == (x, y)
  {
  }

  lemma NoPointYet(p: Picture, x0: int, y0: int, x1: int, y1: int, bounds: Option<Rect>, c: Rgba)
    requires p.Valid()
    ensures p == Painted(p, LinePaint(x0, y0, x1, y1, -1, bounds, c))
  {
    PaintedBy(p, LinePaint(x0, y0, x1, y1, -1, bounds, c), p);
  }

  function LineBox(x0: int, y0: int, x1: int, y1: int): Rect {
    FromInclusive(Min(x0, x1), Min(y0, y1), Max(x0, x1), Max(y0, y1))
  }

  /** Before the turn's point is painted: `n` points are, and the loop's variables are those of the n-th. */
  ghost predicate Drawing(p: Picture, q: Picture, x0: int, y0: int, x1: int, y1: int, bounds: Option<Rect>, c: Rgba,
                          n: nat, s: Steps, err: int, x: int, y: int)
  {
    var (dx, dy) := (Abs(x1 - x0), Abs(y1 - y0));
    && p.Valid() && q.Valid() && SameSize(p, q) && n <= LineLength(x0, y0, x1, y1)
    && s == StepsAfter(dx, dy, n) && s.i <= dx && s.j <= dy
    && err == s.e + dx - dy && (x, y) == PointAt(x0, y0, x1, y1, n)
    && q == Painted(p, LinePaint(x0, y0, x1, y1, n - 1, bounds, c))
  }

  lemma DrawingStarts(p: Picture, x0: int, y0: int, x1: int, y1: int, bounds: Option<Rect>, c: Rgba)
    requires p.Valid()
    ensures Drawing(p, p, x0, y0, x1, y1, bounds, c, 0, Steps(0, 0, 0), Abs(x1 - x0) - Abs(y1 - y0), x0, y0)
  {
    hide Painted, LinePaint, StepsAfter, PointAt;
    NoPointYet(p, x0, y0, x1, y1, bounds, c);
    NoSteps(Abs(x1 - x0), Abs(y1 - y0));
    PointsFromStartToEnd(x0, y0, x1, y1, 0);
  }

  /** One turn paints the point and, unless it is the last, goes on to the next. */
  lemma DrawingTurn(p: Picture, q: Picture, x0: int, y0: int, x1: int, y1: int, bounds: Option<Rect>, c: Rgba,
                    n: nat, s: Steps, err: int, x: int, y: int)
    requires Drawing(p, q, x0, y0, x1, y1, bounds, c, n, s, err, x, y)
    ensures q.Valid()
    ensures var (dx, dy) := (Abs(x1 - x0), Abs(y1 - y0));
            var r := Painted(q, Solid(Clip(q.width, q.height, Rect(x, y, 1, 1), bounds), c));
            if x == x1 && y == y1 then r == Painted(p, LinePaint(x0, y0, x1, y1, LineLength(x0, y0, x1, y1), bounds, c))
            else
              var (t, h, v) := (Step(dx, dy, s), 2 * err >= -dy, 2 * err <= dx);
              && s.i + s.j < t.i + t.j && t.i <= dx && t.j <= dy
              && Drawing(p, r, x0, y0, x1, y1, bounds, c, n + 1, t, err - (if h then dy else 0) + (if v then dx else 0),
                         if h then (if x0 < x1 then x + 1 else x - 1) else x,
                         if v then (if y0 < y1 then y + 1 else y - 1) else y)
  {
    hide Painted, LinePaint, StepsAfter, PointAt, Clip, Picture.Valid, Step;
    PaintPoint(p, x0, y0, x1, y1, n, bounds, c);
    PointsFromStartToEnd(x0, y0, x1, y1, n);
    if n < LineLength(x0, y0, x1, y1) {
      NextPoint(x0, y0, x1, y1, n);
    }
  }

  /** The next turn's variables. */
  lemma NextPoint(x0: int, y0: int, x1: int, y1: int, n: nat)
    requires n < LineLength(x0, y0, x1, y1)
    ensures var (dx, dy) := (Abs(x1 - x0), Abs(y1 - y0));
            var (s, t) := (StepsAfter(dx, dy, n), StepsAfter(dx, dy, n + 1));
            var err := s.e + dx - dy;
            var (h, v, (x, y)) := (2 * err >= -dy, 2 * err <= dx, PointAt(x0, y0, x1, y1, n));
            && t == Step(dx, dy, s) && s.i + s.j < t.i + t.j && t.i <= dx && t.j <= dy
            && t.e + dx - dy == err - (if h then dy else 0) + (if v then dx else 0)
            && PointAt(x0, y0, x1, y1, n + 1) == (if h then (if x0 < x1 then x + 1 else x - 1) else x,
                                                  if v then (if y0 < y1 then y + 1 else y - 1) else y)
  {
    hide StepsAfter, PointAt;
    var dx, dy := Abs(x1 - x0), Abs(y1 - y0);
    StepsInvariant(dx, dy, n);
    StepsInvariant(dx, dy, n + 1);
    NextSteps(dx, dy, n);
    PointOfSteps(x0, y0, x1, y1, n);
    PointOfSteps(x0, y0, x1, y1, n + 1);
  }

  method DrawLine(canvas: OrderCanvas, bounds: Option<Rect>, x0: int, y0: int, x1: int, y1: int, color: Rgba)
      returns (dirty: Rect)
    requires canvas.Valid()
    modifies canvas.data
    ensures canvas.Valid() && dirty == LineBox(x0, y0, x1, y1)
    ensures canvas.Pic() == Painted(old(canvas.Pic()),
                                    LinePaint(x0, y0, x1, y1, LineLength(x0, y0, x1, y1), bounds, color))
  {
    hide Painted, LinePaint, Clip, Step, LineBox, Drawing;
    dirty := LineBox(x0, y0, x1, y1);
    var dx := Abs(x1 - x0);
    var dy := -Abs(y1 - y0);
    var sx := if x0 < x1 then 1 else -1;
    var sy := if y0 < y1 then 1 else -1;
    var err := dx + dy;
    var x, y := x0, y0;
    ghost var n, p, steps := 0, canvas.Pic(), Steps(0, 0, 0);
    DrawingStarts(p, x0, y0, x1, y1, bounds, color);
    while true
      invariant canvas.Valid() && steps.i <= dx && steps.j <= -dy
      invariant Drawing(p, canvas.Pic(), x0, y0, x1, y1, bounds, color, n, steps, err, x, y)
      decreases (dx - steps.i) + (-dy - steps.j)
    {
      DrawingTurn(p, canvas.Pic(), x0, y0, x1, y1, bounds, color, n, steps, err, x, y);
      var _ := canvas.FillRect(Rect(x, y, 1, 1), bounds, color);
      if x == x1 && y == y1 {
        break;
      }
      var e2 := 2 * err;
      if e2 >= dy {
        err := err + dy;
        x := x + sx;
      }
      if e2 <= dx {
        err := err + dx;
        y := y + sy;
      }
      n := n + 1;
      steps := Step(dx, -dy, steps);
    }
  }

  /** The reported rectangle covers every changed pixel, for coordinates whose extents do not saturate. */
  lemma LineWithinBox(p: Picture, x0: int, y0: int, x1: int, y1: int, bounds: Option<Rect>, c: Rgba)
    requires p.Valid()
    requires Max(x0, x1) - Min(x0, x1) < MAX32 && Max(y0, y1) - Min(y0, y1) < MAX32
    ensures ChangedWithin(p, Painted(p, LinePaint(x0, y0, x1, y1, LineLength(x0, y0, x1, y1), bounds, c)),
                          LineBox(x0, y0, x1, y1))
    ensures forall x, y :: LineBox(x0, y0, x1, y1).Has(x, y)
                           <==> Min(x0, x1) <= x <= Max(x0, x1) && Min(y0, y1) <= y <= Max(y0, y1)
  {
    hide Painted, PointAt;
    var m := LineLength(x0, y0, x1, y1);
    var f, box := LinePaint(x0, y0, x1, y1, m, bounds, c), LineBox(x0, y0, x1, y1);
    forall x, y | f(x, y).Some?
      ensures box.Has(x, y)
    {
      var n: nat :| n <= m && PointAt(x0, y0, x1, y1, n) == (x, y);
      PointsFromStartToEnd(x0, y0, x1, y1, n);
    }
    PaintedWithin(p, f, box);
  }
}
