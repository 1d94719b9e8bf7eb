/** Intersect2D: boolean overlap tests between points, segments, planes,
    halfspaces, circles and rectangles. Each test is a function on the
    shapes' values; its contract ties the answer to a reference definition
    — a closest point, a witness point both shapes contain, or a point of
    the segment inside the other shape. */
module Intersections {
  import opened Scalars
  import opened Vectors
  import opened Planes
  import opened Circles
  import opened Rectangles
  import opened Closest

  // ------------------------------------------------------------ point tests

  /** pointInPlane: the point's signed distance is exactly zero. For a unit
      normal that is the same as the point being its own closest point of
      the plane. */
  function PointInPlane(p: Point, l: Line): (r: bool)
    ensures LengthSquared(l.normal) == 1.0 ==> (r <==> PlaneClosest(l, p) == p)
  {
    UnitShift(l.normal, SignedDistance(l, p), p);
    SignedDistance(l, p) == 0.0
  }

  /** Moving p by a non-zero multiple of a unit vector moves it. */
  lemma UnitShift(n: Point, t: real, p: Point)
    ensures LengthSquared(n) == 1.0 ==> (Sub(p, Scale(n, t)) == p <==> t == 0.0)
  {
    if LengthSquared(n) == 1.0 && t != 0.0 && Sub(p, Scale(n, t)) == p {
      assert n.x * t == 0.0 && n.y * t == 0.0;
      ZeroFactor(n.x, t);
      ZeroFactor(n.y, t);
      assert false;
    }
  }

  lemma ZeroFactor(a: real, t: real)
    requires a * t == 0.0 && t != 0.0
    ensures a == 0.0
  {
    NonZeroProduct(a, t);
  }

  lemma NonZeroProduct(a: real, b: real)
    ensures a != 0.0 && b != 0.0 ==> a * b != 0.0
  {
    if a > 0.0 && b > 0.0 { assert a * b > 0.0; }
    if a > 0.0 && b < 0.0 { assert a * (-b) > 0.0; }
    if a < 0.0 && b > 0.0 { assert (-a) * b > 0.0; }
    if a < 0.0 && b < 0.0 { assert (-a) * (-b) > 0.0; }
  }

  /** pointInHalfspace: the point's signed distance is at most zero. For a
      unit normal that is the same as the point being its own closest point
      of the halfspace. */
  function PointInHalfspace(p: Point, l: Line): (r: bool)
    ensures LengthSquared(l.normal) == 1.0 ==> (r <==> HalfspaceClosest(l, p) == p)
  {
    UnitShift(l.normal, SignedDistance(l, p), p);
    SignedDistance(l, p) <= 0.0
  }

  /** pointInCircle: the squared distance to the center is at most the
      squared radius. */
  function PointInCircle(p: Point, c: Disc): bool
  {
    DistanceSquared(p, c.center) <= c.radius * c.radius
  }

  /** A point is in a circle exactly when it is its own closest point of the circle. */
  lemma {:induction false} PointInCircleIsFixedPoint(p: Point, c: Disc, root: real)
    requires IsSqrt(root, CircleRatio(p, c))
    ensures PointInCircle(p, c) <==> CircleClosest(p, c, root) == p
  {
    if !InDisc(p, c) {
      assert DistanceSquared(CircleClosest(p, c, root), c.center) == c.radius * c.radius;
      assert DistanceSquared(p, c.center) != c.radius * c.radius;
    }
  }

  /** pointInRectangle: the point lies between the corners on both axes. For
      a well-formed rectangle that is the same as the point being its own
      closest point of the rectangle. */
  function PointInRectangle(p: Point, b: Box): (r: bool)
    ensures r <==> InBox(p, b)
    ensures WellFormed(b) ==> (r <==> RectangleClosest(p, b) == p)
  {
    p.x >= b.min.x && p.y >= b.min.y && p.x <= b.max.x && p.y <= b.max.y
  }

  // ---------------------------------------------------------- segment tests

  /** The signed distance along a segment is affine in the parameter. */
  lemma DistanceAlongSegment(l: Line, a: Point, b: Point, t: real)
    ensures SignedDistance(l, PointAt(a, Sub(b, a), t)) ==
      SignedDistance(l, a) + t * (SignedDistance(l, b) - SignedDistance(l, a))
  {
    var q := PointAt(a, Sub(b, a), t);
    AffineIdentity(q.x, q.y, a.x, a.y, b.x, b.y, l.normal.x, l.normal.y, l.offset, t);
  }

  lemma AffineIdentity(qx: real, qy: real, ax: real, ay: real, bx: real, b_y: real,
                       nx: real, ny: real, o: real, t: real)
    requires qx == ax + (bx - ax) * t && qy == ay + (b_y - ay) * t
    ensures qx * nx + qy * ny + o ==
      (ax * nx + ay * ny + o) + t * ((bx * nx + b_y * ny + o) - (ax * nx + ay * ny + o))
  {
  }

  /** segmentInPlane: the endpoints' signed distances do not have strictly
      the same sign. */
  function SegmentInPlane(a: Point, b: Point, l: Line): (r: bool)
    ensures r <==> SignedDistance(l, a) * SignedDistance(l, b) <= 0.0
  {
    var dA, dB := SignedDistance(l, a), SignedDistance(l, b);
    SignOfProduct(dA, dB);
    (dA <= 0.0 && dB >= 0.0) || (dA >= 0.0 && dB <= 0.0)
  }

  lemma SignOfProduct(a: real, b: real)
    ensures a * b <= 0.0 <==> (a <= 0.0 && b >= 0.0) || (a >= 0.0 && b <= 0.0)
  {
    if a > 0.0 && b > 0.0 { assert a * b > 0.0; }
    if a < 0.0 && b < 0.0 { assert (-a) * (-b) > 0.0; }
    if a <= 0.0 && b >= 0.0 { assert (-a) * b >= 0.0; }
    if a >= 0.0 && b <= 0.0 { assert a * (-b) >= 0.0; }
  }

  /** The parameter at which the segment crosses the plane: where the
      affine signed distance vanishes, or 0 when both ends are on it. */
  function CrossingParameter(dA: real, dB: real): real
  {
    if dA == dB then 0.0 else dA / (dA - dB)
  }

  /** When segmentInPlane says yes, the segment has a point on the plane. */
  lemma {:induction false} SegmentInPlaneWitness(a: Point, b: Point, l: Line)
    requires SegmentInPlane(a, b, l)
    ensures var t := CrossingParameter(SignedDistance(l, a), SignedDistance(l, b));
      0.0 <= t <= 1.0 && SignedDistance(l, PointAt(a, Sub(b, a), t)) == 0.0
  {
    var dA, dB := SignedDistance(l, a), SignedDistance(l, b);
    DistanceAlongSegment(l, a, b, CrossingParameter(dA, dB));
    CrossingInRange(dA, dB);
  }

  lemma CrossingInRange(dA: real, dB: real)
    requires (dA <= 0.0 && dB >= 0.0) || (dA >= 0.0 && dB <= 0.0)
    ensures 0.0 <= CrossingParameter(dA, dB) <= 1.0
    ensures dA + CrossingParameter(dA, dB) * (dB - dA) == 0.0
  {
    if dA != dB {
      var t := dA / (dA - dB);
      assert t * (dA - dB) == dA;
      if dA - dB > 0.0 {
        assert dA >= 0.0 && dA <= dA - dB;
      } else {
        assert dA <= 0.0 && dA >= dA - dB;
      }
    }
  }

  /** When the segment has a point on the plane, segmentInPlane says yes. */
  lemma {:induction false} SegmentInPlaneComplete(a: Point, b: Point, l: Line, t: real)
    requires 0.0 <= t <= 1.0 && SignedDistance(l, PointAt(a, Sub(b, a), t)) == 0.0
    ensures SegmentInPlane(a, b, l)
  {
    var dA, dB := SignedDistance(l, a), SignedDistance(l, b);
    DistanceAlongSegment(l, a, b, t);
    AffineZero(dA, dB, t);
  }

  lemma AffineZero(dA: real, dB: real, t: real)
    requires 0.0 <= t <= 1.0 && dA + t * (dB - dA) == 0.0
    ensures (dA <= 0.0 && dB >= 0.0) || (dA >= 0.0 && dB <= 0.0)
  {
    ConvexSign(dA, dB, t);
  }

  /** A convex combination of two values of the same strict sign has that sign. */
  lemma ConvexSign(dA: real, dB: real, t: real)
    requires 0.0 <= t <= 1.0
    ensures dA > 0.0 && dB > 0.0 ==> dA + t * (dB - dA) > 0.0
    ensures dA < 0.0 && dB < 0.0 ==> dA + t * (dB - dA) < 0.0
  {
    assert dA + t * (dB - dA) == (1.0 - t) * dA + t * dB;
    if dA > 0.0 && dB > 0.0 {
      assert (1.0 - t) * dA >= 0.0 && t * dB >= 0.0;
      assert t * dB > 0.0 || (1.0 - t) * dA > 0.0;
    }
    if dA < 0.0 && dB < 0.0 {
      assert (1.0 - t) * dA <= 0.0 && t * dB <= 0.0;
      assert t * dB < 0.0 || (1.0 - t) * dA < 0.0;
    }
  }

  /** segmentInHalfspace: at least one endpoint is in the halfspace. */
  function SegmentInHalfspace(a: Point, b: Point, l: Line): (r: bool)
    ensures r <==> PointInHalfspace(a, l) || PointInHalfspace(b, l)
  {
    SignedDistance(l, a) <= 0.0 || SignedDistance(l, b) <= 0.0
  }

  /** Any point of the segment in the halfspace makes segmentInHalfspace say
      yes (and an endpoint is always a witness when it does). */
  lemma {:induction false} SegmentInHalfspaceComplete(a: Point, b: Point, l: Line, t: real)
    requires 0.0 <= t <= 1.0 && SignedDistance(l, PointAt(a, Sub(b, a), t)) <= 0.0
    ensures SegmentInHalfspace(a, b, l)
  {
    DistanceAlongSegment(l, a, b, t);
    ConvexNonPositive(SignedDistance(l, a), SignedDistance(l, b), t, SignedDistance(l, PointAt(a, Sub(b, a), t)));
  }

  lemma ConvexNonPositive(dA: real, dB: real, t: real, m: real)
    requires 0.0 <= t <= 1.0 && m == dA + t * (dB - dA) && m <= 0.0
    ensures dA <= 0.0 || dB <= 0.0
  {
    ConvexSign(dA, dB, t);
  }

  /** The squared distance does not depend on the order of the points. */
  lemma DistanceSymmetric(p: Point, q: Point)
    ensures DistanceSquared(p, q) == DistanceSquared(q, p)
  {
    assert (p.x - q.x) * (p.x - q.x) == (q.x - p.x) * (q.x - p.x);
    assert (p.y - q.y) * (p.y - q.y) == (q.y - p.y) * (q.y - p.y);
  }

  /** segmentInCircle as written: the circle's center is projected on the
      segment with the same slip in the squared direction length as
      pointInSegment, and the resulting point of the segment is tested
      against the circle. A yes is always backed by a point of the segment. */
  function SegmentInCircleAsWritten(a: Point, b: Point, c: Disc): (r: bool)
    requires DirectionSquaredAsWritten(a, b) != 0.0
    ensures r ==> exists q :: OnSegment(q, a, b) && InDisc(q, c)
  {
    var q := SegmentClosestAsWritten(c.center, a, b);
    DistanceSymmetric(q, c.center);
    DistanceSquared(q, c.center) <= c.radius * c.radius
  }

  /** The as-written test compares the as-written closest point with the circle. */
  lemma SegmentInCircleAsWrittenTests(a: Point, b: Point, c: Disc)
    requires DirectionSquaredAsWritten(a, b) != 0.0
    ensures SegmentInCircleAsWritten(a, b, c) == InDisc(SegmentClosestAsWritten(c.center, a, b), c)
  {
    DistanceSymmetric(SegmentClosestAsWritten(c.center, a, b), c.center);
  }

  /** segmentInCircle as evidently intended: the point of the segment nearest
      to the center is tested against the circle. */
  function SegmentInCircle(a: Point, b: Point, c: Disc): (r: bool)
    requires LengthSquared(Sub(b, a)) != 0.0
    ensures r ==> InDisc(SegmentClosest(c.center, a, b), c)
  {
    var q := SegmentClosest(c.center, a, b);
    DistanceSquared(q, c.center) <= c.radius * c.radius
  }

  /** The corrected test says yes exactly when some point of the segment is
      in the circle. */
  lemma {:induction false} SegmentInCircleExact(a: Point, b: Point, c: Disc, s: real)
    requires LengthSquared(Sub(b, a)) != 0.0
    ensures SegmentInCircle(a, b, c) ==> OnSegment(SegmentClosest(c.center, a, b), a, b)
    ensures 0.0 <= s <= 1.0 && InDisc(PointAt(a, Sub(b, a), s), c) ==> SegmentInCircle(a, b, c)
  {
    var q := SegmentClosest(c.center, a, b);
    var w := PointAt(a, Sub(b, a), s);
    DistanceSymmetric(q, c.center);
    DistanceSymmetric(w, c.center);
  }

  // ----------------------------------------------------- segment-rectangle

  /** The interval [lo, hi] of segment parameters still in play. */
  datatype Span = Span(lo: real, hi: real)

  /** One axis of segmentInRectangle: the segment starts at a along this axis
      and moves by d; the slab is [lo, hi]. A zero direction keeps the span
      when a is inside the slab and rejects the segment otherwise; any other
      direction intersects the span with the parameters inside the slab. */
  function NarrowAxis(a: real, d: real, lo: real, hi: real, s: Span): (r: Option<Span>)
    ensures r.Some? ==> s.lo <= r.value.lo && r.value.hi <= s.hi
    ensures r.Some? && s.lo <= s.hi ==> r.value.lo <= r.value.hi
  {
    if d == 0.0 then
      if a < lo || a > hi then None else Some(s)
    else
      Narrowed(s, EntryParameter(a, d, lo, hi), ExitParameter(a, d, lo, hi))
  }

  /** t1 of one axis: with denominator = 1 / d, the parameter at which the
      segment enters the slab (the nearer bound along the direction). */
  function EntryParameter(a: real, d: real, lo: real, hi: real): real
    requires d != 0.0
  {
    var den := 1.0 / d;
    if den > 0.0 then (lo - a) * den else (hi - a) * den
  }

  /** t2 of one axis: the parameter at which the segment leaves the slab. */
  function ExitParameter(a: real, d: real, lo: real, hi: real): real
    requires d != 0.0
  {
    var den := 1.0 / d;
    if den > 0.0 then (hi - a) * den else (lo - a) * den
  }

  /** tMin = max(tMin, t1), tMax = min(tMax, t2), and no span when tMin > tMax. */
  function Narrowed(s: Span, t1: real, t2: real): Option<Span>
  {
    var nlo := Max(s.lo, t1);
    var nhi := Min(s.hi, t2);
    if nlo > nhi then None else Some(Span(nlo, nhi))
  }

  /** The parameters t of the span whose point v = a + d * t is inside the
      slab are exactly those of the narrowed span r; a narrowed span lies
      inside the span it came from. */
  lemma {:induction false} NarrowAxisExact(a: real, d: real, lo: real, hi: real, s: Span, t: real,
                                           v: real, r: Option<Span>)
    requires s.lo <= s.hi && v == a + d * t && r == NarrowAxis(a, d, lo, hi, s)
    ensures (s.lo <= t <= s.hi && lo <= v <= hi) <==> (r.Some? && r.value.lo <= t <= r.value.hi)
    ensures r.Some? ==> s.lo <= r.value.lo <= r.value.hi <= s.hi
  {
    if d != 0.0 {
      var t1, t2 := EntryParameter(a, d, lo, hi), ExitParameter(a, d, lo, hi);
      assert r == Narrowed(s, t1, t2);
      SlabParameters(a, d, lo, hi, t, v);
      NarrowedExact(s, t1, t2, t, r);
      SameConjunction(s.lo <= t <= s.hi, lo <= v <= hi, t1 <= t <= t2,
                      r.Some? && r.value.lo <= t <= r.value.hi);
    } else {
      assert v == a;
    }
  }

  /** Replacing one conjunct by an equivalent one. */
  lemma SameConjunction(inSpan: bool, inSlab: bool, inBounds: bool, kept: bool)
    requires inSlab <==> inBounds
    requires (inSpan && inBounds) <==> kept
    ensures (inSpan && inSlab) <==> kept
  {
  }

  /** The span kept by Narrowed is the part of s inside [t1, t2]. */
  lemma NarrowedExact(s: Span, t1: real, t2: real, t: real, r: Option<Span>)
    requires r == Narrowed(s, t1, t2)
    ensures (s.lo <= t <= s.hi && t1 <= t <= t2) <==> (r.Some? && r.value.lo <= t <= r.value.hi)
    ensures r.Some? ==> s.lo <= r.value.lo <= r.value.hi <= s.hi
  {
  }

  /** Along one axis the point a + d * t is in [lo, hi] exactly when t lies
      between the two bounds the routine computes. */
  lemma SlabParameters(a: real, d: real, lo: real, hi: real, t: real, v: real)
    requires d != 0.0 && v == a + d * t
    ensures (EntryParameter(a, d, lo, hi) <= t <= ExitParameter(a, d, lo, hi)) <==> (lo <= v <= hi)
  {
    InverseSign(d);
    if d > 0.0 {
      assert EntryParameter(a, d, lo, hi) == (lo - a) * (1.0 / d);
      assert ExitParameter(a, d, lo, hi) == (hi - a) * (1.0 / d);
      DivideBound(lo - a, d, t);
      DivideBound(hi - a, d, t);
    } else {
      assert EntryParameter(a, d, lo, hi) == (hi - a) * (1.0 / d);
      assert ExitParameter(a, d, lo, hi) == (lo - a) * (1.0 / d);
      DivideBound(lo - a, d, t);
      DivideBound(hi - a, d, t);
    }
  }

  /** 1 / d has the sign of d. */
  lemma InverseSign(d: real)
    ensures d > 0.0 ==> 1.0 / d > 0.0
    ensures d < 0.0 ==> 1.0 / d < 0.0
  {
    if d != 0.0 {
      assert (1.0 / d) * d == 1.0;
    }
  }

  /** Comparing x / d with t is comparing x with d * t, the order flipping
      for a negative d. */
  lemma DivideBound(x: real, d: real, t: real)
    requires d != 0.0
    ensures d > 0.0 ==> (x * (1.0 / d) <= t <==> x <= d * t) && (t <= x * (1.0 / d) <==> d * t <= x)
    ensures d < 0.0 ==> (x * (1.0 / d) <= t <==> d * t <= x) && (t <= x * (1.0 / d) <==> x <= d * t)
  {
    var k := x * (1.0 / d);
    assert k * d == x;
    MultiplyOrder(k, t, d);
  }

  lemma MultiplyOrder(u: real, v: real, d: real)
    ensures d > 0.0 ==> (u <= v <==> u * d <= v * d)
    ensures d < 0.0 ==> (u <= v <==> v * d <= u * d)
  {
    assert v * d - u * d == (v - u) * d;
    if d > 0.0 {
      if u <= v { assert (v - u) * d >= 0.0; } else { assert (u - v) * d > 0.0; }
    }
    if d < 0.0 {
      if u <= v { assert (v - u) * (-d) >= 0.0; } else { assert (u - v) * (-d) > 0.0; }
    }
  }

  /** The x slab and then the y slab clip the parameter span [0, 1]. */
  function SlabClip(a: Point, b: Point, box: Box): (r: Option<Span>)
    ensures r.Some? ==> 0.0 <= r.value.lo <= r.value.hi <= 1.0
  {
    match NarrowAxis(a.x, b.x - a.x, box.min.x, box.max.x, Span(0.0, 1.0))
    case None => None
    case Some(s) => NarrowAxis(a.y, b.y - a.y, box.min.y, box.max.y, s)
  }

  /** segmentInRectangle: true when the clipped span is not empty, that is,
      exactly when some point of the segment from a to b is in the rectangle. */
  function SegmentInRectangle(a: Point, b: Point, box: Box): (r: bool)
    ensures r <==> exists t :: 0.0 <= t <= 1.0 && InBox(PointAt(a, Sub(b, a), t), box)
  {
    SlabClipNonEmpty(a, b, box);
    SlabClip(a, b, box).Some?
  }

  /** The clipped span is empty exactly when no point of the segment is in
      the rectangle. */
  lemma {:induction false} SlabClipNonEmpty(a: Point, b: Point, box: Box)
    ensures SlabClip(a, b, box).Some? <==>
      exists t :: 0.0 <= t <= 1.0 && InBox(PointAt(a, Sub(b, a), t), box)
  {
    if SlabClip(a, b, box).Some? {
      SlabClipExact(a, b, box, SlabClip(a, b, box).value.lo);
    } else {
      forall t | 0.0 <= t <= 1.0
        ensures !InBox(PointAt(a, Sub(b, a), t), box)
      {
        SlabClipExact(a, b, box, t);
      }
    }
  }

  /** The clipped span holds exactly the parameters in [0, 1] whose point of
      the segment is in the rectangle. */
  lemma {:induction false} SlabClipExact(a: Point, b: Point, box: Box, t: real)
    ensures (0.0 <= t <= 1.0 && InBox(PointAt(a, Sub(b, a), t), box)) <==>
      (SlabClip(a, b, box).Some? && SlabClip(a, b, box).value.lo <= t <= SlabClip(a, b, box).value.hi)
    ensures SlabClip(a, b, box).Some? ==>
      0.0 <= SlabClip(a, b, box).value.lo <= SlabClip(a, b, box).value.hi <= 1.0
  {
    var q := PointAt(a, Sub(b, a), t);
    var r := SlabClip(a, b, box);
    SlabClipSteps(a, b, box, t, q, r);
    assert InBox(q, box) <==> box.min.x <= q.x <= box.max.x && box.min.y <= q.y <= box.max.y;
  }

  lemma {:induction false} SlabClipSteps(a: Point, b: Point, box: Box, t: real, q: Point, r: Option<Span>)
    requires q == PointAt(a, Sub(b, a), t) && r == SlabClip(a, b, box)
    ensures (0.0 <= t <= 1.0 && box.min.x <= q.x <= box.max.x && box.min.y <= q.y <= box.max.y) <==>
      (r.Some? && r.value.lo <= t <= r.value.hi)
    ensures r.Some? ==> 0.0 <= r.value.lo <= r.value.hi <= 1.0
  {
    SegmentCoordinates(a, b, t);
    var sx := NarrowAxis(a.x, b.x - a.x, box.min.x, box.max.x, Span(0.0, 1.0));
    NarrowAxisExact(a.x, b.x - a.x, box.min.x, box.max.x, Span(0.0, 1.0), t, q.x, sx);
    SecondAxis(a, b, box, t, q.y, sx, r);
    ChainExact(box.min.x <= q.x <= box.max.x, box.min.y <= q.y <= box.max.y, t, sx, r);
  }

  lemma SegmentCoordinates(a: Point, b: Point, t: real)
    ensures PointAt(a, Sub(b, a), t) == Point(a.x + (b.x - a.x) * t, a.y + (b.y - a.y) * t)
  {
    var d := Sub(b, a);
    assert d.x == b.x - a.x && d.y == b.y - a.y;
    assert Scale(d, t) == Point(d.x * t, d.y * t);
  }

  /** The y step of SlabClip, given the span sx the x step left. */
  lemma SecondAxis(a: Point, b: Point, box: Box, t: real, vy: real, sx: Option<Span>, r: Option<Span>)
    requires vy == a.y + (b.y - a.y) * t
    requires sx == NarrowAxis(a.x, b.x - a.x, box.min.x, box.max.x, Span(0.0, 1.0))
    requires sx.Some? ==> sx.value.lo <= sx.value.hi
    requires r == SlabClip(a, b, box)
    ensures sx.None? ==> r.None?
    ensures sx.Some? ==>
      ((sx.value.lo <= t <= sx.value.hi && box.min.y <= vy <= box.max.y) <==>
       (r.Some? && r.value.lo <= t <= r.value.hi))
    ensures sx.Some? && r.Some? ==> sx.value.lo <= r.value.lo <= r.value.hi <= sx.value.hi
  {
    if sx.Some? {
      assert r == NarrowAxis(a.y, b.y - a.y, box.min.y, box.max.y, sx.value);
      NarrowAxisExact(a.y, b.y - a.y, box.min.y, box.max.y, sx.value, t, vy, r);
    }
  }

  /** Two narrowing steps in a row keep exactly the parameters both keep. */
  lemma ChainExact(inX: bool, inY: bool, t: real, sx: Option<Span>, r: Option<Span>)
    requires (0.0 <= t <= 1.0 && inX) <==> (sx.Some? && sx.value.lo <= t <= sx.value.hi)
    requires sx.Some? ==> 0.0 <= sx.value.lo <= sx.value.hi <= 1.0
    requires sx.None? ==> r.None?
    requires sx.Some? ==> ((sx.value.lo <= t <= sx.value.hi && inY) <==> (r.Some? && r.value.lo <= t <= r.value.hi))
    requires sx.Some? && r.Some? ==> sx.value.lo <= r.value.lo <= r.value.hi <= sx.value.hi
    ensures (0.0 <= t <= 1.0 && inX && inY) <==> (r.Some? && r.value.lo <= t <= r.value.hi)
    ensures r.Some? ==> 0.0 <= r.value.lo <= r.value.hi <= 1.0
  {
  }

  /** segmentInRectangle says yes exactly when some point of the segment is
      in the rectangle; the start of the clipped span is such a point. */
  lemma {:induction false} SegmentInRectangleExact(a: Point, b: Point, box: Box, t: real)
    ensures SegmentInRectangle(a, b, box) ==>
      InBox(PointAt(a, Sub(b, a), SlabClip(a, b, box).value.lo), box)
    ensures 0.0 <= t <= 1.0 && InBox(PointAt(a, Sub(b, a), t), box) ==> SegmentInRectangle(a, b, box)
  {
    SlabClipExact(a, b, box, t);
    if SlabClip(a, b, box).Some? {
      SlabClipExact(a, b, box, SlabClip(a, b, box).value.lo);
    }
  }

  /** A segment whose ends coincide meets the rectangle exactly when its one
      point is in it. */
  lemma {:induction false} DegenerateSegmentInRectangle(a: Point, box: Box)
    ensures SegmentInRectangle(a, a, box) == PointInRectangle(a, box)
  {
    forall t
      ensures PointAt(a, Sub(a, a), t) == a
    {
      assert Sub(a, a) == Origin;
    }
    if PointInRectangle(a, box) {
      assert 0.0 <= 0.0 <= 1.0 && InBox(PointAt(a, Sub(a, a), 0.0), box);
    }
  }

  // ----------------------------------------------------------- circle tests

  /** For a unit normal, the projection of p on the line is at squared
      distance sd * sd from p. */
  lemma {:induction false} PlaneClosestDistance(l: Line, p: Point)
    requires LengthSquared(l.normal) == 1.0
    ensures DistanceSquared(p, PlaneClosest(l, p)) == SignedDistance(l, p) * SignedDistance(l, p)
  {
    var t, r := SignedDistance(l, p), PlaneClosest(l, p);
    var w := Sub(p, r);
    assert w.x == l.normal.x * t && w.y == l.normal.y * t;
    ScaledUnit(l.normal.x, l.normal.y, t, w.x, w.y);
  }

  /** For non-negative values, comparing them is comparing their squares. */
  lemma SquareOrder(w: real, r: real)
    requires w >= 0.0 && r >= 0.0
    ensures w <= r <==> w * w <= r * r
  {
    if w <= r {
      ProductsOrdered(w, w, r, r);
    } else {
      ProductsOrdered(r, r, w, w);
      assert w * w - r * r == (w - r) * (w + r);
      assert (w - r) * (w + r) > 0.0 by { PositiveProduct(w - r, w + r); }
    }
  }

  lemma ProductsOrdered(a: real, b: real, c: real, d: real)
    requires 0.0 <= a <= c && 0.0 <= b <= d
    ensures a * b <= c * d
  {
    assert a * b <= c * b;
    assert c * b <= c * d;
  }

  lemma PositiveProduct(a: real, b: real)
    requires a > 0.0 && b > 0.0
    ensures a * b > 0.0
  {
  }

  /** |v| <= r exactly when v * v <= r * r, for r >= 0. */
  lemma AbsWithin(v: real, r: real)
    requires r >= 0.0
    ensures Abs(v) <= r <==> v * v <= r * r
  {
    SquareOrder(Abs(v), r);
    assert Abs(v) * Abs(v) == v * v;
  }

  /** circleInPlane: the center's signed distance is at most the radius in
      absolute value. For a unit normal and a non-negative radius that is
      the same as the center's projection on the line lying in the circle. */
  function CircleInPlane(c: Disc, l: Line): (r: bool)
    ensures LengthSquared(l.normal) == 1.0 && c.radius >= 0.0 ==>
      (r <==> InDisc(PlaneClosest(l, c.center), c))
  {
    CircleInPlaneByProjection(c, l);
    Abs(SignedDistance(l, c.center)) <= c.radius
  }

  lemma {:induction false} CircleInPlaneByProjection(c: Disc, l: Line)
    ensures LengthSquared(l.normal) == 1.0 && c.radius >= 0.0 ==>
      (Abs(SignedDistance(l, c.center)) <= c.radius <==> InDisc(PlaneClosest(l, c.center), c))
  {
    if LengthSquared(l.normal) == 1.0 && c.radius >= 0.0 {
      var q := PlaneClosest(l, c.center);
      PlaneClosestDistance(l, c.center);
      DistanceSymmetric(q, c.center);
      AbsWithin(SignedDistance(l, c.center), c.radius);
    }
  }

  /** Any point of the line inside the circle makes circleInPlane say yes. */
  lemma {:induction false} CircleInPlaneComplete(c: Disc, l: Line, q: Point)
    requires LengthSquared(l.normal) == 1.0 && c.radius >= 0.0
    requires SignedDistance(l, q) == 0.0 && InDisc(q, c)
    ensures CircleInPlane(c, l)
  {
    PlaneClosestIsNearest(l, c.center, q);
    DistanceSymmetric(q, c.center);
    DistanceSymmetric(PlaneClosest(l, c.center), c.center);
  }

  /** circleInHalfspace: the center's signed distance is at most the radius.
      For a unit normal and a non-negative radius that is the same as the
      center's closest point of the halfspace lying in the circle. */
  function CircleInHalfspace(c: Disc, l: Line): (r: bool)
    ensures LengthSquared(l.normal) == 1.0 && c.radius >= 0.0 ==>
      (r <==> InDisc(HalfspaceClosest(l, c.center), c))
  {
    CircleInHalfspaceByProjection(c, l);
    SignedDistance(l, c.center) <= c.radius
  }

  lemma {:induction false} CircleInHalfspaceByProjection(c: Disc, l: Line)
    ensures LengthSquared(l.normal) == 1.0 && c.radius >= 0.0 ==>
      (SignedDistance(l, c.center) <= c.radius <==> InDisc(HalfspaceClosest(l, c.center), c))
  {
    if LengthSquared(l.normal) == 1.0 && c.radius >= 0.0 {
      if SignedDistance(l, c.center) <= 0.0 {
        CenterInside(c, l);
      } else {
        CenterOutside(c, l);
      }
    }
  }

  lemma CenterInside(c: Disc, l: Line)
    requires c.radius >= 0.0 && SignedDistance(l, c.center) <= 0.0
    ensures SignedDistance(l, c.center) <= c.radius && InDisc(HalfspaceClosest(l, c.center), c)
  {
    var h := HalfspaceClosest(l, c.center);
    assert h == c.center;
    CenterInDisc(c, h);
  }

  lemma CenterOutside(c: Disc, l: Line)
    requires LengthSquared(l.normal) == 1.0 && c.radius >= 0.0 && SignedDistance(l, c.center) > 0.0
    ensures SignedDistance(l, c.center) <= c.radius <==> InDisc(HalfspaceClosest(l, c.center), c)
  {
    assert HalfspaceClosest(l, c.center) == PlaneClosest(l, c.center);
    CircleInPlaneByProjection(c, l);
  }

  /** A circle of non-negative radius contains its center. */
  lemma CenterInDisc(c: Disc, p: Point)
    requires c.radius >= 0.0 && p == c.center
    ensures InDisc(p, c)
  {
    assert Sub(p, c.center) == Origin;
    assert c.radius * c.radius >= 0.0;
  }

  /** Any point of the halfspace inside the circle makes circleInHalfspace say yes. */
  lemma {:induction false} CircleInHalfspaceComplete(c: Disc, l: Line, q: Point)
    requires LengthSquared(l.normal) == 1.0 && c.radius >= 0.0
    requires SignedDistance(l, q) <= 0.0 && InDisc(q, c)
    ensures CircleInHalfspace(c, l)
  {
    HalfspaceClosestIsNearest(l, c.center, q);
    DistanceSymmetric(q, c.center);
    DistanceSymmetric(HalfspaceClosest(l, c.center), c.center);
  }

  /** A circle that meets the line meets its halfspace. */
  lemma {:induction false} CircleInPlaneInHalfspace(c: Disc, l: Line)
    ensures CircleInPlane(c, l) ==> CircleInHalfspace(c, l)
  {
  }

  /** circleInCircle: the squared distance between the centers is at most the
      square of the sum of the radii; for non-negative radii, that is the
      two discs sharing a point. */
  function CircleInCircle(c1: Disc, c2: Disc): (r: bool)
    ensures c1.radius >= 0.0 && c2.radius >= 0.0 ==> (r <==> exists q :: InDisc(q, c1) && InDisc(q, c2))
  {
    CentersWithinExact(c1, c2);
    CentersWithin(c1, c2)
  }

  /** The squared distance between the centers against the squared sum of the radii. */
  predicate CentersWithin(c1: Disc, c2: Disc)
  {
    LengthSquared(Sub(c2.center, c1.center)) <= (c1.radius + c2.radius) * (c1.radius + c2.radius)
  }

  /** The centers are within the sum of the radii exactly when the discs share a point. */
  lemma {:induction false} CentersWithinExact(c1: Disc, c2: Disc)
    ensures c1.radius >= 0.0 && c2.radius >= 0.0 ==>
      (CentersWithin(c1, c2) <==> exists q :: InDisc(q, c1) && InDisc(q, c2))
  {
    if c1.radius >= 0.0 && c2.radius >= 0.0 {
      if CentersWithin(c1, c2) {
        CircleInCircleSound(c1, c2);
      } else {
        forall q | InDisc(q, c1)
          ensures !InDisc(q, c2)
        {
          if InDisc(q, c2) {
            CircleInCircleComplete(c1, c2, q);
          }
        }
      }
    }
  }

  /** The test does not depend on the order of the circles. */
  lemma {:induction false} CircleInCircleSymmetric(c1: Disc, c2: Disc)
    ensures CircleInCircle(c1, c2) == CircleInCircle(c2, c1)
  {
    DistanceSymmetric(c2.center, c1.center);
    assert c1.radius + c2.radius == c2.radius + c1.radius;
  }

  /** The point of the segment between the centers that splits it in the
      ratio of the radii. */
  function TouchPoint(c1: Disc, c2: Disc): Point
    requires c1.radius + c2.radius > 0.0
  {
    PointAt(c1.center, Sub(c2.center, c1.center), c1.radius / (c1.radius + c2.radius))
  }

  /** When circleInCircle says yes (radii non-negative), the circles share a
      point: TouchPoint, or the common center of two circles of radius zero. */
  lemma {:induction false} CircleInCircleSound(c1: Disc, c2: Disc)
    requires c1.radius >= 0.0 && c2.radius >= 0.0 && CentersWithin(c1, c2)
    ensures exists q :: InDisc(q, c1) && InDisc(q, c2)
  {
    if c1.radius + c2.radius > 0.0 {
      TouchPointInFirst(c1, c2);
      TouchPointInSecond(c1, c2);
    } else {
      TouchPointOfPoints(c1, c2);
    }
  }

  /** Two circles of radius zero touch only at a common center. */
  lemma {:induction false} TouchPointOfPoints(c1: Disc, c2: Disc)
    requires c1.radius == 0.0 && c2.radius == 0.0 && CentersWithin(c1, c2)
    ensures InDisc(c1.center, c1) && InDisc(c1.center, c2)
  {
    CenterInDisc(c1, c1.center);
    SameCenter(c1, c2);
  }

  lemma {:induction false} SameCenter(c1: Disc, c2: Disc)
    requires c1.radius == 0.0 && c2.radius == 0.0 && CentersWithin(c1, c2)
    ensures InDisc(c1.center, c2)
  {
    DistanceSymmetric(c1.center, c2.center);
  }

  lemma {:induction false} TouchPointInFirst(c1: Disc, c2: Disc)
    requires c1.radius >= 0.0 && c2.radius >= 0.0 && c1.radius + c2.radius > 0.0
    requires CentersWithin(c1, c2)
    ensures InDisc(TouchPoint(c1, c2), c1)
  {
    var d, S := Sub(c2.center, c1.center), c1.radius + c2.radius;
    var k := c1.radius / S;
    var w := TouchPoint(c1, c2);
    assert w == PointAt(c1.center, d, k);
    var u := Sub(w, c1.center);
    assert u.x == d.x * k && u.y == d.y * k;
    ScaledLengthSquared(d.x, d.y, k);
    assert k * S == c1.radius;
    ScaledWithin(LengthSquared(d), S, k, c1.radius);
  }

  lemma {:induction false} TouchPointInSecond(c1: Disc, c2: Disc)
    requires c1.radius >= 0.0 && c2.radius >= 0.0 && c1.radius + c2.radius > 0.0
    requires CentersWithin(c1, c2)
    ensures InDisc(TouchPoint(c1, c2), c2)
  {
    var d, S := Sub(c2.center, c1.center), c1.radius + c2.radius;
    var k := c1.radius / S;
    var w := TouchPoint(c1, c2);
    assert w == PointAt(c1.center, d, k);
    var v := Sub(w, c2.center);
    FarOffset(c1.center.x, c2.center.x, d.x, k, w.x);
    FarOffset(c1.center.y, c2.center.y, d.y, k, w.y);
    ScaledLengthSquared(d.x, d.y, k - 1.0);
    assert k * S == c1.radius;
    assert (k - 1.0) * S == -c2.radius;
    ScaledWithin(LengthSquared(d), S, k - 1.0, c2.radius);
  }

  lemma FarOffset(c1: real, c2: real, d: real, k: real, w: real)
    requires d == c2 - c1 && w == c1 + d * k
    ensures w - c2 == d * (k - 1.0)
  {
  }

  /** D <= S * S and |k * S| = r give D * k * k <= r * r. */
  lemma ScaledWithin(D: real, S: real, k: real, r: real)
    requires D <= S * S && (k * S == r || k * S == -r)
    ensures D * (k * k) <= r * r
  {
    assert k * k >= 0.0;
    assert D * (k * k) <= (S * S) * (k * k);
    assert (S * S) * (k * k) == (k * S) * (k * S);
  }

  /** A point inside both circles makes circleInCircle say yes: the triangle
      inequality, in squared form. */
  lemma {:induction false} CircleInCircleComplete(c1: Disc, c2: Disc, q: Point)
    requires c1.radius >= 0.0 && c2.radius >= 0.0
    requires InDisc(q, c1) && InDisc(q, c2)
    ensures CentersWithin(c1, c2)
  {
    var u, v := Sub(q, c1.center), Sub(c2.center, q);
    DistanceSymmetric(q, c2.center);
    assert Sub(c2.center, c1.center) == Point(u.x + v.x, u.y + v.y);
    SquaredTriangle(u.x, u.y, v.x, v.y, c1.radius, c2.radius);
  }

  /** |u + v|^2 <= (r1 + r2)^2 when |u| <= r1 and |v| <= r2, in squares. */
  lemma SquaredTriangle(ux: real, uy: real, vx: real, vy: real, r1: real, r2: real)
    requires r1 >= 0.0 && r2 >= 0.0
    requires ux * ux + uy * uy <= r1 * r1 && vx * vx + vy * vy <= r2 * r2
    ensures (ux + vx) * (ux + vx) + (uy + vy) * (uy + vy) <= (r1 + r2) * (r1 + r2)
  {
    var A, B, C := ux * ux + uy * uy, vx * vx + vy * vy, ux * vx + uy * vy;
    CauchySchwarz(ux, uy, vx, vy);
    ProductWithin(A, B, r1 * r1, r2 * r2);
    SquareOfProduct(r1, r2);
    RootBound(C, r1 * r2);
    SumOfSquares(ux, uy, vx, vy);
    assert (r1 + r2) * (r1 + r2) == r1 * r1 + 2.0 * (r1 * r2) + r2 * r2;
  }

  /** The Cauchy-Schwarz inequality in two dimensions (Lagrange's identity). */
  lemma CauchySchwarz(ux: real, uy: real, vx: real, vy: real)
    ensures (ux * vx + uy * vy) * (ux * vx + uy * vy) <= (ux * ux + uy * uy) * (vx * vx + vy * vy)
  {
    var m := ux * vy - uy * vx;
    assert (ux * ux + uy * uy) * (vx * vx + vy * vy) - (ux * vx + uy * vy) * (ux * vx + uy * vy) == m * m;
  }

  lemma ProductWithin(a: real, b: real, ra: real, rb: real)
    requires 0.0 <= a <= ra && 0.0 <= b <= rb
    ensures a * b <= ra * rb
  {
    assert a * b <= ra * b;
    assert ra * b <= ra * rb;
  }

  /** C * C <= R * R with R >= 0 gives C <= R. */
  lemma RootBound(C: real, R: real)
    requires R >= 0.0 && C * C <= R * R
    ensures C <= R
  {
    if C > R {
      SquareOrder(C, R);
    }
  }

  lemma SumOfSquares(ux: real, uy: real, vx: real, vy: real)
    ensures (ux + vx) * (ux + vx) + (uy + vy) * (uy + vy) ==
      (ux * ux + uy * uy) + 2.0 * (ux * vx + uy * vy) + (vx * vx + vy * vy)
  {
  }

  /** circleInRectangle: the point of the rectangle nearest to the center,
      found by clamping, lies in the circle. */
  function CircleInRectangle(c: Disc, b: Box): (r: bool)
    ensures WellFormed(b) ==> (r <==> exists q :: InBox(q, b) && InDisc(q, c))
  {
    var closest := RectangleClosest(c.center, b);
    ClampedWithinExact(c, b);
    DistanceSquared(closest, c.center) <= c.radius * c.radius
  }

  /** The clamped center is within the radius exactly when a point of the
      rectangle is in the circle. */
  lemma {:induction false} ClampedWithinExact(c: Disc, b: Box)
    ensures WellFormed(b) ==>
      (DistanceSquared(RectangleClosest(c.center, b), c.center) <= c.radius * c.radius <==>
       exists q :: InBox(q, b) && InDisc(q, c))
  {
    var closest := RectangleClosest(c.center, b);
    DistanceSymmetric(closest, c.center);
    forall q | InBox(q, b) && InDisc(q, c)
      ensures DistanceSquared(closest, c.center) <= c.radius * c.radius
    {
      RectangleClosestIsNearest(c.center, b, q);
      DistanceSymmetric(q, c.center);
    }
    if WellFormed(b) && DistanceSquared(closest, c.center) <= c.radius * c.radius {
      assert InBox(closest, b) && InDisc(closest, c);
    }
  }

  /** A point of the rectangle inside the circle makes circleInRectangle say
      yes; when it says yes the clamped point is such a point. */
  lemma {:induction false} CircleInRectangleExact(c: Disc, b: Box, q: Point)
    ensures CircleInRectangle(c, b) && WellFormed(b) ==> InBox(RectangleClosest(c.center, b), b)
    ensures InBox(q, b) && InDisc(q, c) ==> CircleInRectangle(c, b)
  {
    if InBox(q, b) {
      RectangleClosestIsNearest(c.center, b, q);
      DistanceSymmetric(q, c.center);
      DistanceSymmetric(RectangleClosest(c.center, b), c.center);
    }
  }

  // -------------------------------------------------------- rectangle tests

  /** The signed distance is the projection on the normal plus the offset. */
  lemma SignedDistanceAsDot(l: Line, p: Point)
    ensures SignedDistance(l, p) == Dot(p, l.normal) + l.offset
  {
  }

  /** The signed distances of the center and of the two extreme corners. */
  lemma {:induction false} CornerDistances(b: Box, l: Line)
    ensures SignedDistance(l, FarCorner(b, l.normal)) ==
      SignedDistance(l, Center(b)) + ProjectedExtent(b, l.normal)
    ensures SignedDistance(l, NearCorner(b, l.normal)) ==
      SignedDistance(l, Center(b)) - ProjectedExtent(b, l.normal)
  {
    CornerProjections(b, l.normal);
    SignedDistanceAsDot(l, FarCorner(b, l.normal));
    SignedDistanceAsDot(l, NearCorner(b, l.normal));
    SignedDistanceAsDot(l, Center(b));
  }

  /** rectangleInPlane: the center's signed distance is at most the
      rectangle's extent projected on the normal, in absolute value; that is,
      the nearest corner is on or behind the line and the farthest corner on
      or in front of it. */
  function RectangleInPlane(b: Box, l: Line): (r: bool)
    ensures r <==> SignedDistance(l, NearCorner(b, l.normal)) <= 0.0 <= SignedDistance(l, FarCorner(b, l.normal))
  {
    CornerDistances(b, l);
    Abs(SignedDistance(l, Center(b))) <= ProjectedExtent(b, l.normal)
  }

  /** The point where the segment from the near corner to the far corner
      crosses the line. */
  function PlaneCrossing(b: Box, l: Line): Point
  {
    var m, f := NearCorner(b, l.normal), FarCorner(b, l.normal);
    PointAt(m, Sub(f, m), CrossingParameter(SignedDistance(l, m), SignedDistance(l, f)))
  }

  /** For a well-formed rectangle, rectangleInPlane says yes exactly when a
      point of the rectangle is on the line: PlaneCrossing when it says yes,
      and no point at all when it says no. */
  lemma {:induction false} RectangleInPlaneExact(b: Box, l: Line, q: Point)
    requires WellFormed(b)
    ensures RectangleInPlane(b, l) ==>
      InBox(PlaneCrossing(b, l), b) && SignedDistance(l, PlaneCrossing(b, l)) == 0.0
    ensures InBox(q, b) && SignedDistance(l, q) == 0.0 ==> RectangleInPlane(b, l)
  {
    var n := l.normal;
    var m, f := NearCorner(b, n), FarCorner(b, n);
    CornersInBox(b, n);
    if RectangleInPlane(b, l) {
      SegmentInPlaneWitness(m, f, l);
      ConvexInBox(m, f, CrossingParameter(SignedDistance(l, m), SignedDistance(l, f)), b);
    }
    if InBox(q, b) {
      CornersBound(b, n, q);
      SignedDistanceAsDot(l, q);
      SignedDistanceAsDot(l, m);
      SignedDistanceAsDot(l, f);
    }
  }

  /** The extreme corners of a well-formed rectangle belong to it. */
  lemma CornersInBox(b: Box, n: Point)
    requires WellFormed(b)
    ensures InBox(NearCorner(b, n), b) && InBox(FarCorner(b, n), b)
  {
  }

  /** A rectangle contains the segment between any two of its points. */
  lemma {:induction false} ConvexInBox(m: Point, f: Point, t: real, b: Box)
    requires InBox(m, b) && InBox(f, b) && 0.0 <= t <= 1.0
    ensures InBox(PointAt(m, Sub(f, m), t), b)
  {
    SegmentCoordinates(m, f, t);
    ConvexAxis(b.min.x, b.max.x, m.x, f.x, t);
    ConvexAxis(b.min.y, b.max.y, m.y, f.y, t);
  }

  lemma ConvexAxis(lo: real, hi: real, m: real, f: real, t: real)
    requires lo <= m <= hi && lo <= f <= hi && 0.0 <= t <= 1.0
    ensures lo <= m + (f - m) * t <= hi
  {
    assert m + (f - m) * t == m + t * (f - m);
    BetweenBy(lo - m, f - m, hi - m, t);
  }

  /** A fraction t of a value between two bounds around zero stays between them. */
  lemma BetweenBy(lo: real, v: real, hi: real, t: real)
    requires lo <= 0.0 <= hi && lo <= v <= hi && 0.0 <= t <= 1.0
    ensures lo <= t * v <= hi
  {
    if v >= 0.0 {
      assert 0.0 <= t * v <= 1.0 * v;
    } else {
      assert (1.0 - t) * v <= 0.0 && t * v <= 0.0;
    }
  }

  /** rectangleInHalfspace: the center's signed distance is at most the
      projected extent; that is, the nearest corner is in the halfspace. */
  function RectangleInHalfspace(b: Box, l: Line): (r: bool)
    ensures r <==> SignedDistance(l, NearCorner(b, l.normal)) <= 0.0
  {
    CornerDistances(b, l);
    SignedDistance(l, Center(b)) <= ProjectedExtent(b, l.normal)
  }

  /** For a well-formed rectangle, rectangleInHalfspace says yes exactly when
      a point of the rectangle is in the halfspace; the near corner is one. */
  lemma {:induction false} RectangleInHalfspaceExact(b: Box, l: Line, q: Point)
    requires WellFormed(b)
    ensures RectangleInHalfspace(b, l) ==> InBox(NearCorner(b, l.normal), b)
    ensures InBox(q, b) && SignedDistance(l, q) <= 0.0 ==> RectangleInHalfspace(b, l)
  {
    var n := l.normal;
    CornersInBox(b, n);
    if InBox(q, b) {
      CornersBound(b, n, q);
      SignedDistanceAsDot(l, q);
      SignedDistanceAsDot(l, NearCorner(b, n));
    }
  }

  /** A rectangle that meets the line meets its halfspace. */
  lemma {:induction false} RectangleInPlaneInHalfspace(b: Box, l: Line)
    ensures RectangleInPlane(b, l) ==> RectangleInHalfspace(b, l)
  {
  }

  /** rectangleInRectangle: the rectangles are not separated on either axis. */
  function RectangleInRectangle(b1: Box, b2: Box): (r: bool)
    ensures WellFormed(b1) && WellFormed(b2) && r ==>
      InBox(OverlapCorner(b1, b2), b1) && InBox(OverlapCorner(b1, b2), b2)
  {
    if b1.max.x < b2.min.x || b1.min.x > b2.max.x then false
    else if b1.max.y < b2.min.y || b1.min.y > b2.max.y then false
    else true
  }

  /** The lower-left corner of the overlap of two rectangles. */
  function OverlapCorner(b1: Box, b2: Box): Point
  {
    Point(Max(b1.min.x, b2.min.x), Max(b1.min.y, b2.min.y))
  }

  /** Any common point makes rectangleInRectangle say yes; the test does not
      depend on the order of the rectangles. */
  lemma {:induction false} RectangleInRectangleExact(b1: Box, b2: Box, q: Point)
    ensures InBox(q, b1) && InBox(q, b2) ==> RectangleInRectangle(b1, b2)
    ensures RectangleInRectangle(b1, b2) == RectangleInRectangle(b2, b1)
  {
  }
}
