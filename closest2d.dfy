/** Closest2D: the point of a shape nearest to a given point. Every routine
    writes its answer into a caller-supplied closestPoint vector; each is
    modelled by a method that does the same and by a function on values
    that states what the answer is. */
module Closest {
  import opened Scalars
  import opened Vectors
  import opened Planes
  import opened Circles
  import opened Rectangles

  // ---------------------------------------------------------------- segment

  /** q is a point of the segment from a to b. */
  ghost predicate OnSegment(q: Point, a: Point, b: Point)
  {
    exists t: real :: 0.0 <= t <= 1.0 && q == PointAt(a, Sub(b, a), t)
  }

  /** t clamped to [0, 1], first from below, then from above. */
  function ClampUnit(t: real): real
  {
    if t < 0.0 then 0.0 else if t > 1.0 then 1.0 else t
  }

  /** ClampUnit lands in [0, 1] and moves only a t outside it, to the
      nearer end. */
  lemma ClampUnitRange(t: real)
    ensures 0.0 <= ClampUnit(t) <= 1.0
    ensures 0.0 <= t <= 1.0 ==> ClampUnit(t) == t
    ensures t < 0.0 ==> ClampUnit(t) == 0.0
    ensures t > 1.0 ==> ClampUnit(t) == 1.0
  {
  }

  /** The denominator pointInSegment divides by, as written: the y term
      adds the direction's y component to itself instead of squaring it. */
  function DirectionSquaredAsWritten(a: Point, b: Point): real
  {
    (b.x - a.x) * (b.x - a.x) + ((b.y - a.y) + (b.y - a.y))
  }

  /** The point of the segment at the clamped projection of p - a onto the
      direction b - a, divided by den. */
  function SegmentPoint(p: Point, a: Point, b: Point, den: real): (r: Point)
    requires den != 0.0
    ensures OnSegment(r, a, b)
  {
    ClampUnitRange(Dot(Sub(p, a), Sub(b, a)) / den);
    PointAt(a, Sub(b, a), ClampUnit(Dot(Sub(p, a), Sub(b, a)) / den))
  }

  /** pointInSegment as written. It always yields a point of the segment,
      but not in general the nearest one (SegmentClosestAsWrittenNotNearest). */
  function SegmentClosestAsWritten(p: Point, a: Point, b: Point): (r: Point)
    requires DirectionSquaredAsWritten(a, b) != 0.0
    ensures OnSegment(r, a, b)
  {
    SegmentPoint(p, a, b, DirectionSquaredAsWritten(a, b))
  }

  /** pointInSegment as evidently intended: the projection divided by the
      direction's squared length. The answer is the point of the segment
      nearest to p. */
  function SegmentClosest(p: Point, a: Point, b: Point): (r: Point)
    requires LengthSquared(Sub(b, a)) != 0.0
    ensures OnSegment(r, a, b)
    ensures forall s: real :: 0.0 <= s <= 1.0 ==>
      DistanceSquared(p, r) <= DistanceSquared(p, PointAt(a, Sub(b, a), s))
  {
    var r := SegmentPoint(p, a, b, LengthSquared(Sub(b, a)));
    SegmentClosestIsNearest(p, a, b);
    r
  }

  lemma SegmentClosestIsNearest(p: Point, a: Point, b: Point)
    requires LengthSquared(Sub(b, a)) != 0.0
    ensures forall s: real :: 0.0 <= s <= 1.0 ==>
      DistanceSquared(p, SegmentPoint(p, a, b, LengthSquared(Sub(b, a)))) <= DistanceSquared(p, PointAt(a, Sub(b, a), s))
  {
    var d, w := Sub(b, a), Sub(p, a);
    var den := LengthSquared(d);
    var t := ClampUnit(Dot(w, d) / den);
    assert den > 0.0 by { LengthSquaredNonNegative(d); }
    forall s: real | 0.0 <= s <= 1.0
      ensures DistanceSquared(p, PointAt(a, d, t)) <= DistanceSquared(p, PointAt(a, d, s))
    {
      DistanceAlong(p, a, d, s);
      DistanceAlong(p, a, d, t);
      ClampedMinimizes(Dot(w, d), den, s, t);
    }
  }

  lemma LengthSquaredNonNegative(v: Point)
    ensures LengthSquared(v) >= 0.0
  {
  }

  /** The squared distance from p to a + d * s, as a quadratic in s. */
  lemma DistanceAlong(p: Point, a: Point, d: Point, s: real)
    ensures DistanceSquared(p, PointAt(a, d, s)) ==
      LengthSquared(Sub(p, a)) - 2.0 * s * Dot(Sub(p, a), d) + s * s * LengthSquared(d)
  {
    var w, q := Sub(p, a), Sub(p, PointAt(a, d, s));
    ExpandSquares(q.x, q.y, w.x, w.y, d.x, d.y, s);
  }

  lemma ExpandSquares(qx: real, qy: real, wx: real, wy: real, dx: real, dy: real, s: real)
    requires qx == wx - dx * s && qy == wy - dy * s
    ensures qx * qx + qy * qy ==
      (wx * wx + wy * wy) - 2.0 * s * (wx * dx + wy * dy) + s * s * (dx * dx + dy * dy)
  {
  }

  /** On [0, 1] the quadratic s * s * den - 2 * s * proj is smallest at the
      clamped vertex proj / den. */
  lemma ClampedMinimizes(proj: real, den: real, s: real, t: real)
    requires den > 0.0 && 0.0 <= s <= 1.0 && t == ClampUnit(proj / den)
    ensures t * t * den - 2.0 * t * proj <= s * s * den - 2.0 * s * proj
  {
    var v := proj / den;
    assert proj == v * den;
    ClampUnitRange(v);
    if v < 0.0 {
      assert proj < 0.0 by { NegativeTimesPositive(v, den); }
      assert s * s * den >= 0.0;
      assert s * proj <= 0.0;
    } else if v > 1.0 {
      assert proj > den by { assert proj - den == (v - 1.0) * den; }
      assert s * s * den - 2.0 * s * proj - (den - 2.0 * proj) == (1.0 - s) * (2.0 * proj - (s + 1.0) * den);
      assert 2.0 * proj - (s + 1.0) * den >= 0.0 by { assert (s + 1.0) * den <= 2.0 * den; }
      assert (1.0 - s) * (2.0 * proj - (s + 1.0) * den) >= 0.0;
    } else {
      assert t == v;
      assert s * s * den - 2.0 * s * proj - (t * t * den - 2.0 * t * proj) == (s - t) * (s - t) * den;
      SquareTimesPositive(s - t, den);
    }
  }

  lemma SquareTimesPositive(x: real, k: real)
    requires k > 0.0
    ensures x * x * k >= 0.0
  {
    assert x * x >= 0.0;
  }

  lemma NegativeTimesPositive(a: real, b: real)
    requires a < 0.0 && b > 0.0
    ensures a * b < 0.0
  {
  }

  lemma AsWrittenAt(p: Point, a: Point, b: Point, t: real)
    requires DirectionSquaredAsWritten(a, b) != 0.0
    requires t == ClampUnit(Dot(Sub(p, a), Sub(b, a)) / DirectionSquaredAsWritten(a, b))
    ensures SegmentClosestAsWritten(p, a, b) == PointAt(a, Sub(b, a), t)
  {
  }

  /** directionSquared as pointInSegment computes it from the endpoints. */
  lemma DenominatorAsWritten(a: Point, b: Point, dx: real, dy: real, den: real)
    requires dx == b.x - a.x && dy == b.y - a.y && den == dx * dx + (dy + dy)
    ensures den == DirectionSquaredAsWritten(a, b)
  {
  }

  /** projection as pointInSegment computes it. */
  lemma ProjectionOnDirection(p: Point, a: Point, b: Point, dx: real, dy: real, proj: real)
    requires dx == b.x - a.x && dy == b.y - a.y && proj == (p.x - a.x) * dx + (p.y - a.y) * dy
    ensures proj == Dot(Sub(p, a), Sub(b, a))
  {
  }

  /** The point at parameter t, coordinate by coordinate. */
  lemma PointAtCoordinates(a: Point, b: Point, dx: real, dy: real, t: real)
    requires dx == b.x - a.x && dy == b.y - a.y
    ensures PointAt(a, Sub(b, a), t) == Point(a.x + dx * t, a.y + dy * t)
  {
    assert Sub(b, a) == Point(dx, dy);
    assert Scale(Point(dx, dy), t) == Point(dx * t, dy * t);
  }

  /** pointInSegment: writes into closestPoint the point of the segment at
      the clamped parameter projection / directionSquared, with the
      denominator as written. */
  method PointInSegment(point: Vector2D, segmentA: Vector2D, segmentB: Vector2D, closestPoint: Vector2D)
    requires DirectionSquaredAsWritten(segmentA.Value(), segmentB.Value()) != 0.0
    modifies closestPoint
    ensures closestPoint.Value() == SegmentClosestAsWritten(old(point.Value()), old(segmentA.Value()), old(segmentB.Value()))
  {
    ghost var p, a, b := point.Value(), segmentA.Value(), segmentB.Value();
    var directionX := segmentB.x - segmentA.x;
    var directionY := segmentB.y - segmentA.y;
    var directionSquared := (directionX * directionX) + (directionY + directionY);
    var distanceX := point.x - segmentA.x;
    var distanceY := point.y - segmentA.y;
    var projection := (distanceX * directionX) + (distanceY * directionY);

    var t := projection / directionSquared;
    if t < 0.0 { t := 0.0; }
    if t > 1.0 { t := 1.0; }
    DenominatorAsWritten(a, b, directionX, directionY, directionSquared);
    ProjectionOnDirection(p, a, b, directionX, directionY, projection);
    AsWrittenAt(p, a, b, t);
    PointAtCoordinates(a, b, directionX, directionY, t);

    closestPoint.x := segmentA.x + (directionX * t);
    closestPoint.y := segmentA.y + (directionY * t);
  }

  // ------------------------------------------------------------------ plane

  /** pointInPlane: p moved along the normal by its signed distance. */
  function PlaneClosest(l: Line, p: Point): (r: Point)
    ensures LengthSquared(l.normal) == 1.0 ==> SignedDistance(l, r) == 0.0
  {
    var r := Sub(p, Scale(l.normal, SignedDistance(l, p)));
    DistanceAfterShift(l, p, SignedDistance(l, p));
    r
  }

  /** Moving p by t times the normal changes its signed distance by t times
      the normal's squared length. */
  lemma DistanceAfterShift(l: Line, p: Point, t: real)
    ensures SignedDistance(l, Sub(p, Scale(l.normal, t))) == SignedDistance(l, p) - t * LengthSquared(l.normal)
  {
    var q := Sub(p, Scale(l.normal, t));
    ShiftIdentity(q.x, q.y, p.x, p.y, l.normal.x, l.normal.y, l.offset, t);
  }

  lemma ShiftIdentity(qx: real, qy: real, px: real, py: real, nx: real, ny: real, o: real, t: real)
    requires qx == px - nx * t && qy == py - ny * t
    ensures qx * nx + qy * ny + o == (px * nx + py * ny + o) - t * (nx * nx + ny * ny)
  {
  }

  /** For a unit normal, no point of the line is nearer to p than
      PlaneClosest(l, p). */
  lemma {:induction false} PlaneClosestIsNearest(l: Line, p: Point, q: Point)
    requires LengthSquared(l.normal) == 1.0 && SignedDistance(l, q) == 0.0
    ensures DistanceSquared(p, PlaneClosest(l, p)) <= DistanceSquared(p, q)
  {
    var t := SignedDistance(l, p);
    var r := PlaneClosest(l, p);
    var n, v, u := l.normal, Sub(r, q), Sub(p, q);
    DistanceAfterShift(l, p, t);
    assert Dot(n, v) == SignedDistance(l, r) - SignedDistance(l, q);
    ShiftedSquare(n.x, n.y, v.x, v.y, t, u.x, u.y);
    ScaledUnit(n.x, n.y, t, Sub(p, r).x, Sub(p, r).y);
  }

  /** |n * t + v|^2 >= t^2 for a unit n, when v does not point against n * t. */
  lemma ShiftedSquare(nx: real, ny: real, vx: real, vy: real, t: real, ux: real, uy: real)
    requires ux == nx * t + vx && uy == ny * t + vy
    requires nx * nx + ny * ny == 1.0 && t * (nx * vx + ny * vy) >= 0.0
    ensures ux * ux + uy * uy >= t * t
  {
    assert ux * ux + uy * uy == t * t * (nx * nx + ny * ny) + 2.0 * t * (nx * vx + ny * vy) + (vx * vx + vy * vy);
  }

  /** |n * t|^2 == t^2 for a unit n. */
  lemma ScaledUnit(nx: real, ny: real, t: real, wx: real, wy: real)
    requires wx == nx * t && wy == ny * t && nx * nx + ny * ny == 1.0
    ensures wx * wx + wy * wy == t * t
  {
    assert wx * wx + wy * wy == t * t * (nx * nx + ny * ny);
  }

  /** pointInPlane */
  method PointInPlane(point: Vector2D, plane: Plane2D, closestPoint: Vector2D)
    modifies closestPoint
    ensures closestPoint.Value() == PlaneClosest(old(plane.Value()), old(point.Value()))
  {
    var t := (point.x * plane.normal.x) + (point.y * plane.normal.y) + plane.offset;

    closestPoint.x := point.x - (plane.normal.x * t);
    closestPoint.y := point.y - (plane.normal.y * t);
  }

  // -------------------------------------------------------------- halfspace

  /** pointInHalfspace: p itself when it is inside (signed distance at most
      zero), otherwise its projection on the boundary. */
  function HalfspaceClosest(l: Line, p: Point): (r: Point)
    ensures SignedDistance(l, p) <= 0.0 ==> r == p
    ensures LengthSquared(l.normal) == 1.0 ==> SignedDistance(l, r) <= 0.0
  {
    if SignedDistance(l, p) <= 0.0 then p else PlaneClosest(l, p)
  }

  /** For a unit normal, no point of the halfspace is nearer to p than
      HalfspaceClosest(l, p). */
  lemma {:induction false} HalfspaceClosestIsNearest(l: Line, p: Point, q: Point)
    requires LengthSquared(l.normal) == 1.0 && SignedDistance(l, q) <= 0.0
    ensures DistanceSquared(p, HalfspaceClosest(l, p)) <= DistanceSquared(p, q)
  {
    var t := SignedDistance(l, p);
    if t > 0.0 {
      var r := PlaneClosest(l, p);
      var n, v, u := l.normal, Sub(r, q), Sub(p, q);
      DistanceAfterShift(l, p, t);
      assert Dot(n, v) == SignedDistance(l, r) - SignedDistance(l, q);
      NonNegativeProduct(t, Dot(n, v));
      ShiftedSquare(n.x, n.y, v.x, v.y, t, u.x, u.y);
      ScaledUnit(n.x, n.y, t, Sub(p, r).x, Sub(p, r).y);
    } else {
      assert Sub(p, p) == Origin;
      LengthSquaredNonNegative(Sub(p, q));
    }
  }

  /** pointInHalfspace */
  method PointInHalfspace(point: Vector2D, halfspace: Plane2D, closestPoint: Vector2D)
    modifies closestPoint
    ensures closestPoint.Value() == HalfspaceClosest(old(halfspace.Value()), old(point.Value()))
  {
    var t := (point.x * halfspace.normal.x) + (point.y * halfspace.normal.y) + halfspace.offset;
    ghost var l, p := halfspace.Value(), point.Value();
    assert t == SignedDistance(l, p);

    if t <= 0.0 {
      closestPoint.x := point.x;
      closestPoint.y := point.y;
    } else {
      closestPoint.x := point.x - (halfspace.normal.x * t);
      closestPoint.y := point.y - (halfspace.normal.y * t);
    }
  }

  // ----------------------------------------------------------------- circle

  /** The radicand pointInCircle takes the square root of: the squared
      radius over the squared distance, or 0 when the distance is 0. */
  function CircleRatio(p: Point, c: Disc): real
  {
    if DistanceSquared(p, c.center) != 0.0 then c.radius * c.radius / DistanceSquared(p, c.center) else 0.0
  }

  /** pointInCircle: p itself when it lies in the disc, otherwise the point
      of the boundary on the ray from the center through p. root is
      Math.sqrt(CircleRatio(p, c)). */
  function CircleClosest(p: Point, c: Disc, root: real): (r: Point)
    requires IsSqrt(root, CircleRatio(p, c))
    ensures InDisc(p, c) ==> r == p
    ensures !InDisc(p, c) ==> DistanceSquared(r, c.center) == c.radius * c.radius
    ensures !InDisc(p, c) ==> Dot(Sub(r, c.center), Sub(p, c.center)) >= 0.0
    ensures !InDisc(p, c) ==> exists k :: 0.0 <= k <= 1.0 && Sub(r, c.center) == Scale(Sub(p, c.center), k)
    ensures InDisc(r, c)
  {
    if DistanceSquared(p, c.center) <= c.radius * c.radius then p
    else
      var r := Add(c.center, Scale(Sub(p, c.center), root));
      OnCircle(p, c, root);
      assert Sub(r, c.center) == Scale(Sub(p, c.center), root);
      r
  }

  /** No point of the disc is nearer to p than CircleClosest(p, c, root). */
  lemma {:induction false} CircleClosestIsNearest(p: Point, c: Disc, root: real, q: Point)
    requires IsSqrt(root, CircleRatio(p, c)) && InDisc(q, c)
    ensures DistanceSquared(p, CircleClosest(p, c, root)) <= DistanceSquared(p, q)
  {
    var r := CircleClosest(p, c, root);
    if InDisc(p, c) {
      assert Sub(p, r) == Origin;
      LengthSquaredNonNegative(Sub(p, q));
    } else {
      var w, v := Sub(p, c.center), Sub(q, c.center);
      assert r == Add(c.center, Scale(w, root));
      RatioRoot(p, c, root);
      BelowRadius(w, v, root);
      assert Sub(p, r) == Scale(w, 1.0 - root);
      assert Sub(p, q) == Sub(w, v);
    }
  }

  /** Outside the disc, the root of CircleRatio scales the distance to the
      center down to the radius, so it is at most 1. */
  lemma RatioRoot(p: Point, c: Disc, root: real)
    requires IsSqrt(root, CircleRatio(p, c)) && !InDisc(p, c)
    ensures root <= 1.0 && root * root * LengthSquared(Sub(p, c.center)) == c.radius * c.radius
  {
    var d2 := LengthSquared(Sub(p, c.center));
    LengthSquaredNonNegative(Point(c.radius, 0.0));
    assert root * root == c.radius * c.radius / d2;
    assert root * root * d2 == c.radius * c.radius;
    assert (root * root - 1.0) * d2 < 0.0;
    NegativeFactor(root * root - 1.0, d2);
    RootBelowOne(root);
  }

  lemma SquarePositive(a: real)
    ensures a * a >= 0.0 && (a != 0.0 ==> a * a > 0.0)
  {
    if a < 0.0 {
      assert a * a == (-a) * (-a);
    }
  }

  lemma NegativeFactor(a: real, b: real)
    requires b > 0.0
    ensures a * b < 0.0 ==> a < 0.0
  {
    if a >= 0.0 {
      NonNegativeProduct(a, b);
    }
  }

  lemma RootBelowOne(k: real)
    requires k >= 0.0
    ensures k * k < 1.0 ==> k < 1.0
  {
    if k >= 1.0 {
      NonNegativeProduct(k - 1.0, k);
    }
  }

  /** The disc around the origin of squared radius k^2 |w|^2, with k in
      [0, 1], holds no point v nearer to w than k * w is. */
  lemma BelowRadius(w: Point, v: Point, k: real)
    requires 0.0 <= k <= 1.0
    requires LengthSquared(v) <= k * k * LengthSquared(w)
    ensures LengthSquared(Scale(w, 1.0 - k)) <= LengthSquared(Sub(w, v))
  {
    DotWithinRadius(w, v, k);
    NonNegativeProduct(1.0 - k, k * LengthSquared(w) - Dot(w, v));
    LengthSquaredNonNegative(Sub(Scale(w, k), v));
    SplitAtRadius(w, v, k);
  }

  /** With |v|^2 <= k^2 |w|^2 and k >= 0, v . w <= k |w|^2. */
  lemma DotWithinRadius(w: Point, v: Point, k: real)
    requires 0.0 <= k
    requires LengthSquared(v) <= k * k * LengthSquared(w)
    ensures Dot(w, v) <= k * LengthSquared(w)
  {
    var d2, dot := LengthSquared(w), Dot(w, v);
    LengthSquaredNonNegative(Sub(Scale(w, k), v));
    ExpandOffset(w, v, k);
    if k > 0.0 {
      assert k * dot <= k * k * d2;
      assert (dot - k * d2) * k == k * dot - k * k * d2;
      NonPositiveFactor(dot - k * d2, k);
    } else {
      assert k == 0.0 && LengthSquared(v) <= 0.0;
      SquarePositive(v.x);
      SquarePositive(v.y);
      assert v.x * v.x == 0.0 && v.y * v.y == 0.0;
    }
  }

  /** |k * w - v|^2 expanded. */
  lemma ExpandOffset(w: Point, v: Point, k: real)
    ensures LengthSquared(Sub(Scale(w, k), v)) == k * k * LengthSquared(w) - 2.0 * k * Dot(w, v) + LengthSquared(v)
  {
    assert (w.x * k - v.x) * (w.x * k - v.x) == k * k * (w.x * w.x) - 2.0 * k * (w.x * v.x) + v.x * v.x;
    assert (w.y * k - v.y) * (w.y * k - v.y) == k * k * (w.y * w.y) - 2.0 * k * (w.y * v.y) + v.y * v.y;
  }

  /** |w - v|^2 split at k * w. */
  lemma SplitAtRadius(w: Point, v: Point, k: real)
    ensures LengthSquared(Sub(w, v)) ==
      LengthSquared(Scale(w, 1.0 - k)) + 2.0 * ((1.0 - k) * (k * LengthSquared(w) - Dot(w, v)))
      + LengthSquared(Sub(Scale(w, k), v))
  {
    var a, b := Scale(w, 1.0 - k), Sub(Scale(w, k), v);
    assert Sub(w, v) == Add(a, b);
    assert Dot(a, b) == (1.0 - k) * (k * LengthSquared(w) - Dot(w, v));
    assert LengthSquared(Add(a, b)) == LengthSquared(a) + 2.0 * Dot(a, b) + LengthSquared(b);
  }

  lemma NonPositiveFactor(a: real, b: real)
    requires b > 0.0
    ensures a * b <= 0.0 ==> a <= 0.0
  {
    if a > 0.0 {
      NonNegativeProduct(a, b);
      assert a * b != 0.0;
    }
  }

  lemma OnCircle(p: Point, c: Disc, root: real)
    requires IsSqrt(root, CircleRatio(p, c)) && !InDisc(p, c)
    ensures DistanceSquared(Add(c.center, Scale(Sub(p, c.center), root)), c.center) == c.radius * c.radius
    ensures Dot(Sub(Add(c.center, Scale(Sub(p, c.center), root)), c.center), Sub(p, c.center)) >= 0.0
  {
    var w := Sub(p, c.center);
    var d2, r2 := LengthSquared(w), c.radius * c.radius;
    assert r2 >= 0.0;
    assert d2 != 0.0;
    var e := Sub(Add(c.center, Scale(w, root)), c.center);
    assert e == Scale(w, root);
    ScaledLengthSquared(w.x, w.y, root);
    assert LengthSquared(e) == d2 * (root * root);
    assert root * root == r2 / d2;
    assert d2 * (r2 / d2) == r2;
    assert Dot(e, w) == root * d2;
    assert d2 >= 0.0;
    assert root * d2 >= 0.0;
  }

  /** pointInCircle */
  method PointInCircle(point: Vector2D, circle: Circle2D, closestPoint: Vector2D, root: real)
    requires IsSqrt(root, CircleRatio(point.Value(), circle.Value()))
    modifies closestPoint
    ensures closestPoint.Value() == CircleClosest(old(point.Value()), old(circle.Value()), root)
  {
    ghost var p, c := point.Value(), circle.Value();
    var distanceX := point.x - circle.center.x;
    var distanceY := point.y - circle.center.y;
    var distanceSquared := (distanceX * distanceX) + (distanceY * distanceY);
    var radiusSquared := circle.radius * circle.radius;
    assert Point(distanceX, distanceY) == Sub(p, c.center);
    assert (distanceSquared <= radiusSquared) == InDisc(p, c);

    if distanceSquared <= radiusSquared {
      closestPoint.x := point.x;
      closestPoint.y := point.y;
    } else {
      var t := root;
      closestPoint.x := circle.center.x + (distanceX * t);
      closestPoint.y := circle.center.y + (distanceY * t);
      assert closestPoint.Value() == Add(c.center, Scale(Sub(p, c.center), root));
    }
  }

  // -------------------------------------------------------------- rectangle

  /** v raised to lo if below it, then lowered to hi if above it. */
  function ClampAxis(v: real, lo: real, hi: real): real
  {
    if (if v < lo then lo else v) > hi then hi else if v < lo then lo else v
  }

  /** pointInRectangle: p clamped into the rectangle, axis by axis. */
  function RectangleClosest(p: Point, b: Box): (r: Point)
    ensures WellFormed(b) ==> InBox(r, b)
    ensures InBox(p, b) ==> r == p
  {
    Point(ClampAxis(p.x, b.min.x, b.max.x), ClampAxis(p.y, b.min.y, b.max.y))
  }

  /** No point of the rectangle is nearer to p than RectangleClosest(p, b). */
  lemma {:induction false} RectangleClosestIsNearest(p: Point, b: Box, q: Point)
    requires InBox(q, b)
    ensures DistanceSquared(p, RectangleClosest(p, b)) <= DistanceSquared(p, q)
  {
    var r := RectangleClosest(p, b);
    AxisNearest(p.x, b.min.x, b.max.x, q.x, r.x);
    AxisNearest(p.y, b.min.y, b.max.y, q.y, r.y);
    SumsOrdered(Sub(p, r).x * Sub(p, r).x, Sub(p, q).x * Sub(p, q).x,
                Sub(p, r).y * Sub(p, r).y, Sub(p, q).y * Sub(p, q).y);
  }

  lemma SumsOrdered(a1: real, b1: real, a2: real, b2: real)
    requires a1 <= b1 && a2 <= b2
    ensures a1 + a2 <= b1 + b2
  {
  }

  /** On one axis, the clamped value is at least as near to v as any w of [lo, hi]. */
  lemma AxisNearest(v: real, lo: real, hi: real, w: real, c: real)
    requires lo <= w <= hi && c == ClampAxis(v, lo, hi)
    ensures (v - c) * (v - c) <= (v - w) * (v - w)
  {
    if v < lo {
      assert c == lo;
      assert (v - w) * (v - w) - (v - c) * (v - c) == (c - w) * ((v - w) + (v - c));
      assert (c - w) * ((v - w) + (v - c)) >= 0.0 by { NonPositiveProduct(c - w, (v - w) + (v - c)); }
    } else if v > hi {
      assert c == hi;
      assert (v - w) * (v - w) - (v - c) * (v - c) == (c - w) * ((v - w) + (v - c));
      assert (c - w) * ((v - w) + (v - c)) >= 0.0 by { NonNegativeProduct(c - w, (v - w) + (v - c)); }
    } else {
      assert c == v;
      assert (v - w) * (v - w) >= 0.0;
    }
  }

  lemma NonPositiveProduct(a: real, b: real)
    requires a <= 0.0 && b <= 0.0
    ensures a * b >= 0.0
  {
    assert (-a) * (-b) >= 0.0;
  }

  lemma NonNegativeProduct(a: real, b: real)
    requires a >= 0.0 && b >= 0.0
    ensures a * b >= 0.0
  {
  }

  /** pointInRectangle. closestPoint must not be one of the rectangle's own
      corners: the routine overwrites it before reading them. */
  method PointInRectangle(point: Vector2D, rectangle: Rectangle2D, closestPoint: Vector2D)
    requires closestPoint != rectangle.min && closestPoint != rectangle.max
    modifies closestPoint
    ensures closestPoint.Value() == RectangleClosest(old(point.Value()), old(rectangle.Value()))
  {
    closestPoint.x := point.x;
    closestPoint.y := point.y;
    if closestPoint.x < rectangle.min.x { closestPoint.x := rectangle.min.x; }
    if closestPoint.y < rectangle.min.y { closestPoint.y := rectangle.min.y; }
    if closestPoint.x > rectangle.max.x { closestPoint.x := rectangle.max.x; }
    if closestPoint.y > rectangle.max.y { closestPoint.y := rectangle.max.y; }
  }
}
