/** Concrete inputs on which routines of the package, as written, break the
    promise their own comments make. Each lemma evaluates the as-written
    model on one input; the corrected definitions and their proofs sit next
    to the as-written ones in their modules. */
module Findings {
  import opened Scalars
  import opened Vectors
  import opened Closest
  import opened Circles
  import opened Intersections
  import opened Planes
  import opened RayCasts

  /** The segment a = (0, 0), b = (0, 1) and the point p = b itself: the
      as-written denominator is 2 instead of 1, so the answer is the
      segment's midpoint, half a unit away from p, although p lies on the
      segment. */
  lemma SegmentClosestAsWrittenNotNearest(p: Point, a: Point, b: Point)
    requires a == Point(0.0, 0.0) && b == Point(0.0, 1.0) && p == b
    ensures DirectionSquaredAsWritten(a, b) == 2.0
    ensures SegmentClosestAsWritten(p, a, b) == Point(0.0, 0.5)
    ensures DistanceSquared(p, Point(0.0, 0.5)) == 0.25
    ensures OnSegment(p, a, b)
  {
    SlipParameter(p, a, b);
    AsWrittenAt(p, a, b, 0.5);
    SlipPoints(a, b);
  }

  lemma SlipParameter(p: Point, a: Point, b: Point)
    requires a == Point(0.0, 0.0) && b == Point(0.0, 1.0) && p == b
    ensures DirectionSquaredAsWritten(a, b) == 2.0
    ensures ClampUnit(Dot(Sub(p, a), Sub(b, a)) / 2.0) == 0.5
  {
    assert Sub(b, a) == Point(0.0, 1.0);
  }

  lemma SlipPoints(a: Point, b: Point)
    requires a == Point(0.0, 0.0) && b == Point(0.0, 1.0)
    ensures PointAt(a, Sub(b, a), 0.5) == Point(0.0, 0.5)
    ensures PointAt(a, Sub(b, a), 1.0) == b
    ensures DistanceSquared(b, Point(0.0, 0.5)) == 0.25
  {
    UnitStep(a, b, 0.5);
    UnitStep(a, b, 1.0);
    HalfUnitApart(b);
  }

  lemma UnitStep(a: Point, b: Point, t: real)
    requires a == Point(0.0, 0.0) && b == Point(0.0, 1.0)
    ensures PointAt(a, Sub(b, a), t) == Point(0.0, t)
  {
    assert Sub(b, a) == Point(0.0, 1.0);
  }

  lemma HalfUnitApart(b: Point)
    requires b == Point(0.0, 1.0)
    ensures DistanceSquared(b, Point(0.0, 0.5)) == 0.25
  {
    assert Sub(b, Point(0.0, 0.5)) == Point(0.0, 0.5);
  }

  /** The segment a = (0, 0), b = (0, 1) and the circle of radius 0.1 around
      b: the as-written segmentInCircle tests the midpoint, half a unit from
      the center, and answers no although the endpoint b is in the circle;
      the corrected test answers yes. */
  lemma SegmentInCircleAsWrittenMisses(a: Point, b: Point, c: Disc)
    requires a == Point(0.0, 0.0) && b == Point(0.0, 1.0) && c.center == b && c.radius == 0.1
    ensures !SegmentInCircleAsWritten(a, b, c)
    ensures InDisc(b, c)
    ensures SegmentInCircle(a, b, c)
  {
    AsWrittenTestsMidpoint(a, b, c);
    MidpointTest(a, b, c);
    MidpointOutside(b, c);
    CenterInside(b, c);
    EndpointHits(a, b, c);
  }

  lemma AsWrittenTestsMidpoint(a: Point, b: Point, c: Disc)
    requires a == Point(0.0, 0.0) && b == Point(0.0, 1.0) && c.center == b
    ensures DirectionSquaredAsWritten(a, b) == 2.0
    ensures SegmentClosestAsWritten(c.center, a, b) == Point(0.0, 0.5)
  {
    SlipParameter(b, a, b);
    AsWrittenMidpoint(a, b);
  }

  lemma MidpointTest(a: Point, b: Point, c: Disc)
    requires DirectionSquaredAsWritten(a, b) == 2.0
    requires SegmentClosestAsWritten(c.center, a, b) == Point(0.0, 0.5)
    ensures SegmentInCircleAsWritten(a, b, c) == InDisc(Point(0.0, 0.5), c)
  {
    SegmentInCircleAsWrittenTests(a, b, c);
  }

  lemma AsWrittenMidpoint(a: Point, b: Point)
    requires a == Point(0.0, 0.0) && b == Point(0.0, 1.0)
    requires ClampUnit(Dot(Sub(b, a), Sub(b, a)) / 2.0) == 0.5 && DirectionSquaredAsWritten(a, b) == 2.0
    ensures SegmentClosestAsWritten(b, a, b) == Point(0.0, 0.5)
  {
    AsWrittenAt(b, a, b, 0.5);
    UnitStep(a, b, 0.5);
  }

  lemma MidpointOutside(b: Point, c: Disc)
    requires b == Point(0.0, 1.0) && c.center == b && c.radius == 0.1
    ensures !InDisc(Point(0.0, 0.5), c)
  {
    assert Sub(Point(0.0, 0.5), b) == Point(0.0, -0.5);
  }

  lemma CenterInside(b: Point, c: Disc)
    requires c.center == b && c.radius == 0.1
    ensures InDisc(b, c)
  {
    assert Sub(b, b) == Point(0.0, 0.0);
  }

  lemma EndpointHits(a: Point, b: Point, c: Disc)
    requires a == Point(0.0, 0.0) && b == Point(0.0, 1.0) && InDisc(b, c)
    ensures SegmentInCircle(a, b, c)
  {
    EndpointAtOne(a, b);
    HitAtEnd(a, b, c);
  }

  lemma EndpointAtOne(a: Point, b: Point)
    requires a == Point(0.0, 0.0) && b == Point(0.0, 1.0)
    ensures LengthSquared(Sub(b, a)) == 1.0 && PointAt(a, Sub(b, a), 1.0) == b
  {
    assert Sub(b, a) == Point(0.0, 1.0);
    UnitStep(a, b, 1.0);
  }

  lemma HitAtEnd(a: Point, b: Point, c: Disc)
    requires LengthSquared(Sub(b, a)) == 1.0 && PointAt(a, Sub(b, a), 1.0) == b && InDisc(b, c)
    ensures SegmentInCircle(a, b, c)
  {
    SegmentInCircleExact(a, b, c, 1.0);
  }

  /** The segment from (0, 0) to (10, 5) and the line y = 4: as written,
      rayInPlane takes the direction (10, 10) and reports (4, 4), which is
      not a point of the segment; with the direction (10, 5) the contact
      point is (8, 4). */
  lemma RayInPlaneSlipsOffSegment(from: Point, to: Point, l: Line)
    requires from == Point(0.0, 0.0) && to == Point(10.0, 5.0) && l == Line(Point(0.0, 1.0), -4.0)
    ensures PlaneCastAsWritten(from, to, l) == Cast(true, Point(4.0, 4.0))
    ensures forall t :: PointAt(from, Sub(to, from), t) != Point(4.0, 4.0)
    ensures PlaneCast(from, to, l) == Cast(true, Point(8.0, 4.0))
  {
    SlipCast(from, to, l);
    TrueCast(from, to, l);
    OffSegment(from, to);
  }

  lemma SlipCast(from: Point, to: Point, l: Line)
    requires from == Point(0.0, 0.0) && to == Point(10.0, 5.0) && l == Line(Point(0.0, 1.0), -4.0)
    ensures PlaneCastAsWritten(from, to, l) == Cast(true, Point(4.0, 4.0))
  {
    var d := SlipDirection(from, to);
    assert d.x == 10.0 && d.y == 10.0;
    assert SignedDistance(l, from) == -4.0 && Dot(d, l.normal) == 10.0;
    assert LineParameter(SignedDistance(l, from), Dot(d, l.normal)) == Some(0.4);
    assert PointAt(from, d, 0.4) == Point(4.0, 4.0);
  }

  lemma TrueCast(from: Point, to: Point, l: Line)
    requires from == Point(0.0, 0.0) && to == Point(10.0, 5.0) && l == Line(Point(0.0, 1.0), -4.0)
    ensures PlaneCast(from, to, l) == Cast(true, Point(8.0, 4.0))
  {
    var d := Sub(to, from);
    assert d.x == 10.0 && d.y == 5.0;
    assert SignedDistance(l, from) == -4.0 && Dot(d, l.normal) == 5.0;
    assert PlaneParameter(from, to, l) == Some(0.8);
    assert PointAt(from, d, 0.8) == Point(8.0, 4.0);
  }

  lemma OffSegment(from: Point, to: Point)
    requires from == Point(0.0, 0.0) && to == Point(10.0, 5.0)
    ensures forall t :: PointAt(from, Sub(to, from), t) != Point(4.0, 4.0)
  {
    forall t ensures PointAt(from, Sub(to, from), t) != Point(4.0, 4.0) {
      var d := Sub(to, from);
      assert d.x == 10.0 && d.y == 5.0;
      var q := PointAt(from, d, t);
      assert q.x == 10.0 * t && q.y == 5.0 * t;
    }
  }

  /** The segment from (5, 0) to (10, 0), pointing away from the unit circle
      around the origin: the line meets the circle behind the start (at
      t = -1.2 and t = -0.8), and as written rayInCircle raises the entry
      root to 0 and reports a hit at (5, 0), outside the circle. */
  lemma RayInCircleHitsBehind(from: Point, to: Point, c: Disc, root: real)
    requires from == Point(5.0, 0.0) && to == Point(10.0, 0.0) && c == Disc(Point(0.0, 0.0), 1.0)
    requires root == 5.0
    ensures RootOf(from, to, c, root)
    ensures CircleCastAsWritten(from, to, c, root) == Cast(true, from)
    ensures !InDisc(from, c)
  {
    BehindMeasures(from, to, c, root);
    BehindAsWritten(from, to, c, root);
  }

  /** On the same input the corrected rayInCircle reports a miss, as
      segmentInCircle does for every segment the corrected routine misses
      (CircleCastMeetsSegment). */
  lemma RayInCircleBehindMisses(from: Point, to: Point, c: Disc, root: real)
    requires from == Point(5.0, 0.0) && to == Point(10.0, 0.0) && c == Disc(Point(0.0, 0.0), 1.0)
    requires root == 5.0
    ensures RootOf(from, to, c, root)
    ensures CircleCast(from, to, c, root) == Cast(false, to)
  {
    BehindMeasures(from, to, c, root);
    BehindCorrected(from, to, c, root);
  }

  /** The quantities rayInCircle computes on that input: |d|^2 = 25,
      projection = 25, |w|^2 = 25, radius^2 = 1, so the discriminant is 25
      with root 5 and the entry root is -1.2. */
  lemma BehindMeasures(from: Point, to: Point, c: Disc, root: real)
    requires from == Point(5.0, 0.0) && to == Point(10.0, 0.0) && c == Disc(Point(0.0, 0.0), 1.0)
    requires root == 5.0
    ensures LengthSquared(Sub(to, from)) == 25.0
    ensures RootOf(from, to, c, root) && CircleDiscriminant(from, to, c) == 25.0
    ensures !InDisc(from, c)
    ensures -(Dot(Sub(to, from), Sub(from, c.center)) + root) / LengthSquared(Sub(to, from)) == -1.2
  {
    BehindVectors(from, to, c);
    AlongX(Sub(to, from), Sub(from, c.center));
    AlongX(Sub(from, c.center), Sub(from, c.center));
    UnitSquare(c);
    MeasuresGiveEntry(from, to, c, root);
  }

  lemma MeasuresGiveEntry(from: Point, to: Point, c: Disc, root: real)
    requires Dot(Sub(to, from), Sub(from, c.center)) == 25.0 && LengthSquared(Sub(to, from)) == 25.0
    requires LengthSquared(Sub(from, c.center)) == 25.0 && c.radius * c.radius == 1.0 && root == 5.0
    ensures RootOf(from, to, c, root) && CircleDiscriminant(from, to, c) == 25.0
    ensures !InDisc(from, c)
    ensures -(Dot(Sub(to, from), Sub(from, c.center)) + root) / LengthSquared(Sub(to, from)) == -1.2
  {
    var p, dd := Dot(Sub(to, from), Sub(from, c.center)), LengthSquared(Sub(to, from));
    var ww, rr := LengthSquared(Sub(from, c.center)), c.radius * c.radius;
    assert p * p - dd * (ww - rr) == 25.0;
    assert IsSqrt(root, 25.0);
    Outside(from, c);
    assert -(p + root) / dd == -1.2;
  }

  lemma BehindVectors(from: Point, to: Point, c: Disc)
    requires from == Point(5.0, 0.0) && to == Point(10.0, 0.0) && c == Disc(Point(0.0, 0.0), 1.0)
    ensures Sub(to, from) == Point(5.0, 0.0) && Sub(from, c.center) == Point(5.0, 0.0)
    ensures c.radius == 1.0
  {
  }

  lemma AlongX(v: Point, u: Point)
    requires v == Point(5.0, 0.0) && u == Point(5.0, 0.0)
    ensures Dot(v, u) == 25.0 && LengthSquared(v) == 25.0
  {
  }

  lemma UnitSquare(c: Disc)
    requires c.radius == 1.0
    ensures c.radius * c.radius == 1.0
  {
  }

  lemma Outside(p: Point, c: Disc)
    requires LengthSquared(Sub(p, c.center)) == 25.0 && c.radius * c.radius == 1.0
    ensures !InDisc(p, c)
  {
  }

  lemma BehindAsWritten(from: Point, to: Point, c: Disc, root: real)
    requires RootOf(from, to, c, root) && CircleDiscriminant(from, to, c) == 25.0
    requires LengthSquared(Sub(to, from)) == 25.0 && !InDisc(from, c)
    requires -(Dot(Sub(to, from), Sub(from, c.center)) + root) / LengthSquared(Sub(to, from)) == -1.2
    ensures CircleCastAsWritten(from, to, c, root) == Cast(true, from)
  {
    assert CircleParameterAsWritten(from, to, c, root) == 0.0;
    StartIsParameterZero(from, Sub(to, from));
  }

  lemma BehindCorrected(from: Point, to: Point, c: Disc, root: real)
    requires RootOf(from, to, c, root) && CircleDiscriminant(from, to, c) == 25.0
    requires LengthSquared(Sub(to, from)) == 25.0 && !InDisc(from, c)
    requires -(Dot(Sub(to, from), Sub(from, c.center)) + root) / LengthSquared(Sub(to, from)) == -1.2
    ensures CircleCast(from, to, c, root) == Cast(false, to)
  {
    assert CircleParameter(from, to, c, root) == -1.2;
  }
}
