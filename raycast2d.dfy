/** RayCast2D: the first point at which the segment from rayFrom to rayTo
    meets a shape. Every routine returns whether it met the shape and writes
    the contact point: rayTo on a miss, rayFrom + direction * t on a hit,
    for the parameter t in [0, 1] it computed. Here each routine is a
    function giving that pair, with what it means proved about it, and a
    method that computes it as the routine does. */
module RayCasts {
  import opened Scalars
  import opened Vectors
  import opened Planes
  import opened Circles
  import opened Rectangles
  import Closest
  import Intersections
  import Collisions

  /** What a routine returns and the contact point it writes. */
  datatype Cast = Cast(hit: bool, point: Point)

  /** The outcome for the parameter t, None standing for an infinite t (a
      float division by zero): a hit at from + d * t when t is in [0, 1],
      otherwise a miss that leaves the contact point at to. */
  function CastAt(from: Point, to: Point, d: Point, t: Option<real>): (r: Cast)
    ensures r.hit <==> t.Some? && 0.0 <= t.value <= 1.0
    ensures r.hit ==> r.point == PointAt(from, d, t.value)
    ensures !r.hit ==> r.point == to
  {
    if t.Some? && 0.0 <= t.value <= 1.0 then Cast(true, PointAt(from, d, t.value)) else Cast(false, to)
  }

  /** t = (distance != 0) ? -distance / projection : 0, where a zero
      projection with a non-zero distance gives an infinite t in floats. */
  function LineParameter(distance: real, projection: real): Option<real>
  {
    if distance == 0.0 then Some(0.0)
    else if projection == 0.0 then None
    else Some(-distance / projection)
  }

  /** The signed distance along the line from a with direction d is affine
      in the parameter. */
  lemma DistanceAlongLine(l: Line, a: Point, d: Point, t: real)
    ensures SignedDistance(l, PointAt(a, d, t)) == SignedDistance(l, a) + t * Dot(d, l.normal)
  {
    var q := PointAt(a, d, t);
    LineIdentity(q.x, q.y, a.x, a.y, d.x, d.y, l.normal.x, l.normal.y, l.offset, t);
  }

  lemma LineIdentity(qx: real, qy: real, ax: real, ay: real, dx: real, dy: real,
                     nx: real, ny: real, o: real, t: real)
    requires qx == ax + dx * t && qy == ay + dy * t
    ensures qx * nx + qy * ny + o == (ax * nx + ay * ny + o) + t * (dx * nx + dy * ny)
  {
  }

  /** The line parameter for the start's own distance puts the point on the
      line whenever it is finite. */
  lemma {:induction false} LineParameterOnLine(l: Line, a: Point, d: Point, distance: real)
    ensures var t := LineParameter(distance, Dot(d, l.normal));
      distance == SignedDistance(l, a) && t.Some? ==> SignedDistance(l, PointAt(a, d, t.value)) == 0.0
  {
    var proj := Dot(d, l.normal);
    var t := LineParameter(distance, proj);
    if distance == SignedDistance(l, a) && t.Some? {
      DistanceAlongLine(l, a, d, t.value);
      if distance != 0.0 {
        assert t.value * proj == -distance;
      }
    }
  }

  /** Along the segment, the projection of the direction on the normal is
      the difference of the endpoints' signed distances. */
  lemma ProjectionIsDifference(l: Line, a: Point, b: Point)
    ensures Dot(Sub(b, a), l.normal) == SignedDistance(l, b) - SignedDistance(l, a)
  {
    var n := l.normal;
    assert (b.x - a.x) * n.x == b.x * n.x - a.x * n.x;
    assert (b.y - a.y) * n.y == b.y * n.y - a.y * n.y;
  }

  /** For dA != 0, the crossing parameter dA / (dA - dB) lies in [0, 1]
      exactly when the two distances do not have strictly the same sign. */
  lemma CrossingRange(dA: real, dB: real, t: real)
    requires dA != 0.0 && dA != dB && t == -dA / (dB - dA)
    ensures 0.0 <= t <= 1.0 <==> (dA <= 0.0 && dB >= 0.0) || (dA >= 0.0 && dB <= 0.0)
  {
    var q := dA - dB;
    assert t * q == dA;
    if q > 0.0 {
      ScaledOrder(t, q, dA);
    } else {
      ScaledOrder(t, q, dA);
    }
  }

  /** With t * q == x for a non-zero q, the bounds 0 <= t <= 1 become
      bounds on x. */
  lemma ScaledOrder(t: real, q: real, x: real)
    requires q != 0.0 && t * q == x
    ensures q > 0.0 ==> (0.0 <= t <==> 0.0 <= x) && (t <= 1.0 <==> x <= q)
    ensures q < 0.0 ==> (0.0 <= t <==> x <= 0.0) && (t <= 1.0 <==> q <= x)
  {
    if q > 0.0 {
      if t < 0.0 { assert t * q < 0.0; }
      if t > 1.0 { assert (t - 1.0) * q > 0.0; }
      if 0.0 <= t { assert t * q >= 0.0; }
      if t <= 1.0 { assert (1.0 - t) * q >= 0.0; }
    } else if q < 0.0 {
      if t < 0.0 { assert t * q > 0.0; }
      if t > 1.0 { assert (t - 1.0) * q < 0.0; }
      if 0.0 <= t { assert t * q <= 0.0; }
      if t <= 1.0 { assert (1.0 - t) * q <= 0.0; }
    }
  }

  // ------------------------------------------------------------------ planes

  /** The direction rayInPlane and rayInHalfspace compute as written: the
      y component is taken from the x coordinates. */
  function SlipDirection(from: Point, to: Point): Point
  {
    Point(to.x - from.x, to.x - from.x)
  }

  /** rayInPlane as written. Its hits are points of the line, but points of
      the line through from with the slipped direction, not of the segment. */
  function PlaneCastAsWritten(from: Point, to: Point, l: Line): (r: Cast)
    ensures r.hit ==> SignedDistance(l, r.point) == 0.0
    ensures !r.hit ==> r.point == to
    ensures SignedDistance(l, from) == 0.0 ==> r == Cast(true, from)
  {
    var d := SlipDirection(from, to);
    StartIsParameterZero(from, d);
    var t := LineParameter(SignedDistance(l, from), Dot(d, l.normal));
    LineParameterOnLine(l, from, d, SignedDistance(l, from));
    CastAt(from, to, d, t)
  }

  /** The parameter rayInPlane computes with the direction rayTo - rayFrom. */
  function PlaneParameter(from: Point, to: Point, l: Line): Option<real>
  {
    LineParameter(SignedDistance(l, from), Dot(Sub(to, from), l.normal))
  }

  /** rayInPlane with the direction rayTo - rayFrom: it hits exactly when
      segmentInPlane says the segment meets the line, at a point of the line,
      and at rayFrom itself when rayFrom is on the line. */
  function PlaneCast(from: Point, to: Point, l: Line): (r: Cast)
    ensures r == CastAt(from, to, Sub(to, from), PlaneParameter(from, to, l))
    ensures r.hit <==> Intersections.SegmentInPlane(from, to, l)
    ensures r.hit ==> SignedDistance(l, r.point) == 0.0
    ensures SignedDistance(l, from) == 0.0 ==> r == Cast(true, from)
  {
    var d := Sub(to, from);
    var t := PlaneParameter(from, to, l);
    LineParameterOnLine(l, from, d, SignedDistance(l, from));
    PlaneHitExact(from, to, l);
    CastAt(from, to, d, t)
  }

  lemma {:induction false} PlaneHitExact(from: Point, to: Point, l: Line)
    ensures var t := PlaneParameter(from, to, l);
      (t.Some? && 0.0 <= t.value <= 1.0) <==> Intersections.SegmentInPlane(from, to, l)
    ensures SignedDistance(l, from) == 0.0 ==> PlaneParameter(from, to, l) == Some(0.0)
  {
    var dA, dB := SignedDistance(l, from), SignedDistance(l, to);
    ProjectionIsDifference(l, from, to);
    if dA != 0.0 && dA != dB {
      CrossingRange(dA, dB, -dA / (dB - dA));
    }
  }

  /** The contact point of rayInPlane is the first point of the segment on
      the line. */
  lemma {:induction false} PlaneCastFirst(from: Point, to: Point, l: Line, s: real)
    requires 0.0 <= s <= 1.0 && SignedDistance(l, PointAt(from, Sub(to, from), s)) == 0.0
    ensures PlaneCast(from, to, l).hit
    ensures PlaneParameter(from, to, l).Some? && PlaneParameter(from, to, l).value <= s
  {
    var dA, dB := SignedDistance(l, from), SignedDistance(l, to);
    ProjectionIsDifference(l, from, to);
    DistanceAlongLine(l, from, Sub(to, from), s);
    if dA != 0.0 {
      assert s * (dB - dA) == -dA;
      assert dB != dA;
      assert -dA / (dB - dA) == s;
    }
    Intersections.SegmentInPlaneComplete(from, to, l, s);
  }

  /** rayInHalfspace as written: the start's distance is first raised to at
      least 0, so a start in the halfspace hits at once. */
  function HalfspaceCastAsWritten(from: Point, to: Point, l: Line): (r: Cast)
    ensures r.hit ==> SignedDistance(l, r.point) <= 0.0
    ensures !r.hit ==> r.point == to
    ensures SignedDistance(l, from) <= 0.0 ==> r == Cast(true, from)
  {
    var d := SlipDirection(from, to);
    var t := LineParameter(Max(0.0, SignedDistance(l, from)), Dot(d, l.normal));
    LineParameterOnLine(l, from, d, Max(0.0, SignedDistance(l, from)));
    CastAt(from, to, d, t)
  }

  /** The parameter rayInHalfspace computes with the direction rayTo - rayFrom. */
  function HalfspaceParameter(from: Point, to: Point, l: Line): Option<real>
  {
    LineParameter(Max(0.0, SignedDistance(l, from)), Dot(Sub(to, from), l.normal))
  }

  /** rayInHalfspace with the direction rayTo - rayFrom: it hits exactly
      when segmentInHalfspace says the segment reaches the halfspace, at
      rayFrom when that is in the halfspace and otherwise on the boundary. */
  function HalfspaceCast(from: Point, to: Point, l: Line): (r: Cast)
    ensures r == CastAt(from, to, Sub(to, from), HalfspaceParameter(from, to, l))
    ensures r.hit <==> Intersections.SegmentInHalfspace(from, to, l)
    ensures SignedDistance(l, from) <= 0.0 ==> r == Cast(true, from)
    ensures SignedDistance(l, from) > 0.0 && r.hit ==> SignedDistance(l, r.point) == 0.0
  {
    var d := Sub(to, from);
    var t := HalfspaceParameter(from, to, l);
    LineParameterOnLine(l, from, d, Max(0.0, SignedDistance(l, from)));
    HalfspaceHitExact(from, to, l);
    CastAt(from, to, d, t)
  }

  lemma {:induction false} HalfspaceHitExact(from: Point, to: Point, l: Line)
    ensures var t := HalfspaceParameter(from, to, l);
      (t.Some? && 0.0 <= t.value <= 1.0) <==> Intersections.SegmentInHalfspace(from, to, l)
  {
    var dA, dB := SignedDistance(l, from), SignedDistance(l, to);
    ProjectionIsDifference(l, from, to);
    if dA > 0.0 && dA != dB {
      CrossingRange(dA, dB, -dA / (dB - dA));
    }
  }

  /** The contact point of rayInHalfspace is the first point of the segment
      in the halfspace. */
  lemma {:induction false} HalfspaceCastFirst(from: Point, to: Point, l: Line, s: real)
    requires 0.0 <= s <= 1.0 && SignedDistance(l, PointAt(from, Sub(to, from), s)) <= 0.0
    ensures HalfspaceCast(from, to, l).hit
    ensures HalfspaceParameter(from, to, l).Some? && HalfspaceParameter(from, to, l).value <= s
  {
    var dA, dB := SignedDistance(l, from), SignedDistance(l, to);
    ProjectionIsDifference(l, from, to);
    DistanceAlongLine(l, from, Sub(to, from), s);
    Intersections.SegmentInHalfspaceComplete(from, to, l, s);
    if dA > 0.0 {
      assert s * (dB - dA) <= -dA;
      EntryBeforeS(dA, dB, s);
    }
  }

  lemma EntryBeforeS(dA: real, dB: real, s: real)
    requires dA > 0.0 && s >= 0.0 && s * (dB - dA) <= -dA
    ensures dB != dA && -dA / (dB - dA) <= s
  {
    var q := dB - dA;
    var t := -dA / q;
    assert t * q == -dA;
    assert (s - t) * q <= 0.0;
  }

  // ----------------------------------------------------------------- circles

  /** The discriminant rayInCircle computes: with d = rayTo - rayFrom and
      w = rayFrom - center, projection^2 - |d|^2 * (|w|^2 - radius^2). */
  function CircleDiscriminant(from: Point, to: Point, c: Disc): real
  {
    var d, w := Sub(to, from), Sub(from, c.center);
    Dot(d, w) * Dot(d, w) - LengthSquared(d) * (LengthSquared(w) - c.radius * c.radius)
  }

  /** root is what Math.sqrt returns for the discriminant, when the routine
      takes it. */
  predicate RootOf(from: Point, to: Point, c: Disc, root: real)
  {
    CircleDiscriminant(from, to, c) >= 0.0 ==> IsSqrt(root, CircleDiscriminant(from, to, c))
  }

  /** The parameter rayInCircle computes as written: 0 for a start in the
      circle and Float.MAX_VALUE otherwise, replaced, when the line meets the
      circle, by the entry root raised to at least 0. */
  function CircleParameterAsWritten(from: Point, to: Point, c: Disc, root: real): real
    requires RootOf(from, to, c, root)
  {
    var d, w := Sub(to, from), Sub(from, c.center);
    var t := if LengthSquared(w) <= c.radius * c.radius then 0.0 else FloatMax;
    if CircleDiscriminant(from, to, c) >= 0.0 && LengthSquared(d) != 0.0 then
      Max(0.0, -(Dot(d, w) + root) / LengthSquared(d))
    else t
  }

  /** rayInCircle as written. A start in the circle hits at once and a
      line that misses the circle misses; but a start outside the circle
      with the circle behind it also hits at the start, as the clamp raises
      the negative entry root to 0. */
  function CircleCastAsWritten(from: Point, to: Point, c: Disc, root: real): (r: Cast)
    requires RootOf(from, to, c, root)
    ensures InDisc(from, c) ==> r == Cast(true, from)
    ensures !InDisc(from, c) && CircleDiscriminant(from, to, c) < 0.0 ==> r == Cast(false, to)
    ensures r.hit ==> InDisc(r.point, c) || r.point == from
  {
    var d := Sub(to, from);
    var t := CircleParameterAsWritten(from, to, c, root);
    StartIsParameterZero(from, d);
    InsideClampsToStart(from, to, c, root);
    EntryOnCircle(from, to, c, root);
    CastAt(from, to, d, Some(t))
  }

  /** For a start in the circle, the as-written parameter is 0. */
  lemma {:induction false} InsideClampsToStart(from: Point, to: Point, c: Disc, root: real)
    requires RootOf(from, to, c, root)
    ensures InDisc(from, c) ==> CircleParameterAsWritten(from, to, c, root) == 0.0
  {
    var d, w := Sub(to, from), Sub(from, c.center);
    var dd, p, ww, rr := LengthSquared(d), Dot(d, w), LengthSquared(w), c.radius * c.radius;
    if InDisc(from, c) && CircleDiscriminant(from, to, c) >= 0.0 && dd != 0.0 {
      Closest.LengthSquaredNonNegative(d);
      EntryNotAfterStart(dd, p, ww, rr, root);
    }
  }

  lemma StartIsParameterZero(from: Point, d: Point)
    ensures PointAt(from, d, 0.0) == from
  {
  }

  /** The parameter of rayInCircle as evidently intended: the clamp only
      applies to a start in the circle, so a start outside takes the entry
      root as it is. */
  function CircleParameter(from: Point, to: Point, c: Disc, root: real): real
    requires RootOf(from, to, c, root)
  {
    var d, w := Sub(to, from), Sub(from, c.center);
    if LengthSquared(w) <= c.radius * c.radius then 0.0
    else if CircleDiscriminant(from, to, c) >= 0.0 && LengthSquared(d) != 0.0 then
      -(Dot(d, w) + root) / LengthSquared(d)
    else FloatMax
  }

  /** rayInCircle as evidently intended: a start in the circle hits at the
      start, a line that misses the circle misses, and a hit is a point of
      the circle. */
  function CircleCast(from: Point, to: Point, c: Disc, root: real): (r: Cast)
    requires RootOf(from, to, c, root)
    ensures r == CastAt(from, to, Sub(to, from), Some(CircleParameter(from, to, c, root)))
    ensures InDisc(from, c) ==> r == Cast(true, from)
    ensures !InDisc(from, c) && CircleDiscriminant(from, to, c) < 0.0 ==> r == Cast(false, to)
    ensures r.hit ==> InDisc(r.point, c)
  {
    var d := Sub(to, from);
    var t := CircleParameter(from, to, c, root);
    StartIsParameterZero(from, d);
    EntryOnCircle(from, to, c, root);
    CastAt(from, to, d, Some(t))
  }

  /** The squared distance from the center to the point at parameter t is
      |w|^2 + 2 * t * projection + t^2 * |d|^2. */
  lemma GapAlong(from: Point, d: Point, center: Point, t: real)
    ensures var w := Sub(from, center);
      LengthSquared(Sub(PointAt(from, d, t), center)) ==
        LengthSquared(w) + 2.0 * t * Dot(d, w) + t * t * LengthSquared(d)
  {
    var q, w := Sub(PointAt(from, d, t), center), Sub(from, center);
    ExpandAlong(q.x, q.y, w.x, w.y, d.x, d.y, t);
  }

  lemma ExpandAlong(qx: real, qy: real, wx: real, wy: real, dx: real, dy: real, t: real)
    requires qx == wx + dx * t && qy == wy + dy * t
    ensures qx * qx + qy * qy ==
      (wx * wx + wy * wy) + 2.0 * t * (dx * wx + dy * wy) + t * t * (dx * dx + dy * dy)
  {
  }

  /** |d|^2 times the excess of the squared distance over radius^2 at t is
      (|d|^2 * t + projection)^2 minus the discriminant. */
  lemma ScaledExcess(dd: real, p: real, ww: real, rr: real, t: real, disc: real)
    requires disc == p * p - dd * (ww - rr)
    ensures dd * ((ww - rr) + 2.0 * t * p + t * t * dd) == (dd * t + p) * (dd * t + p) - disc
  {
  }

  /** For a start outside the circle, the entry root is a point of the
      circle. */
  lemma {:induction false} EntryOnCircle(from: Point, to: Point, c: Disc, root: real)
    requires RootOf(from, to, c, root)
    ensures var d, w := Sub(to, from), Sub(from, c.center);
      LengthSquared(w) > c.radius * c.radius && CircleDiscriminant(from, to, c) >= 0.0 &&
      LengthSquared(d) != 0.0 ==>
        InDisc(PointAt(from, d, CircleParameter(from, to, c, root)), c)
  {
    var d, w := Sub(to, from), Sub(from, c.center);
    var dd, p, ww, rr := LengthSquared(d), Dot(d, w), LengthSquared(w), c.radius * c.radius;
    if ww > rr && CircleDiscriminant(from, to, c) >= 0.0 && dd != 0.0 {
      var t := CircleParameter(from, to, c, root);
      assert t == -(p + root) / dd;
      GapAlong(from, d, c.center, t);
      EntryExcessZero(dd, p, ww, rr, root, t);
    }
  }

  /** At the entry root the squared distance exceeds radius^2 by nothing. */
  lemma EntryExcessZero(dd: real, p: real, ww: real, rr: real, root: real, t: real)
    requires dd != 0.0 && root * root == p * p - dd * (ww - rr) && t == -(p + root) / dd
    ensures (ww - rr) + 2.0 * t * p + t * t * dd == 0.0
  {
    var disc := p * p - dd * (ww - rr);
    assert dd * t + p == -root;
    ScaledExcess(dd, p, ww, rr, t, disc);
    NegatedSquare(dd * t + p, root);
    ZeroFactor(dd, (ww - rr) + 2.0 * t * p + t * t * dd);
  }

  lemma NegatedSquare(a: real, b: real)
    requires a == -b
    ensures a * a == b * b
  {
  }

  /** For a start in the circle, the entry root is not positive. */
  lemma EntryNotAfterStart(dd: real, p: real, ww: real, rr: real, root: real)
    requires dd > 0.0 && ww <= rr && root >= 0.0 && root * root == p * p - dd * (ww - rr)
    ensures -(p + root) / dd <= 0.0
  {
    Closest.NonNegativeProduct(dd, rr - ww);
    assert p * p <= root * root;
    Intersections.AbsWithin(p, root);
    assert p + root >= 0.0;
  }

  lemma ZeroFactor(a: real, b: real)
    requires a != 0.0 && a * b == 0.0
    ensures b == 0.0
  {
    Intersections.NonZeroProduct(a, b);
  }

  /** The contact point of rayInCircle is the first point of the segment in
      the circle. */
  lemma {:induction false} CircleCastFirst(from: Point, to: Point, c: Disc, root: real, s: real)
    requires RootOf(from, to, c, root)
    requires 0.0 <= s <= 1.0 && InDisc(PointAt(from, Sub(to, from), s), c)
    ensures CircleCast(from, to, c, root).hit
    ensures CircleParameter(from, to, c, root) <= s
  {
    var d, w := Sub(to, from), Sub(from, c.center);
    var dd, p, ww, rr := LengthSquared(d), Dot(d, w), LengthSquared(w), c.radius * c.radius;
    if ww > rr {
      GapAlong(from, d, c.center, s);
      assert ww + 2.0 * s * p + s * s * dd <= rr;
      Closest.LengthSquaredNonNegative(d);
      ZeroProjection(d, w);
      DirectionNotZero(dd, p, ww, rr, s);
      EntryBeforePoint(dd, p, ww, rr, root, s, CircleDiscriminant(from, to, c));
    }
  }

  /** A start outside the circle and a point of the line inside it make
      the direction non-zero. */
  lemma DirectionNotZero(dd: real, p: real, ww: real, rr: real, s: real)
    requires dd >= 0.0 && (dd == 0.0 ==> p == 0.0)
    ensures ww > rr && ww + 2.0 * s * p + s * s * dd <= rr ==> dd > 0.0
  {
    if dd == 0.0 {
      assert (s * s) * dd == 0.0;
    }
  }

  /** A direction of length zero has projection zero on every vector. */
  lemma ZeroProjection(d: Point, w: Point)
    ensures LengthSquared(d) == 0.0 ==> Dot(d, w) == 0.0
  {
    if LengthSquared(d) == 0.0 {
      Collisions.ZeroLength(d);
      ZeroDot(d, w);
    }
  }

  lemma ZeroDot(d: Point, w: Point)
    requires d.x == 0.0 && d.y == 0.0
    ensures Dot(d, w) == 0.0
  {
  }

  /** With a point s >= 0 of the line inside the circle and a start outside
      it, the line meets the circle and the entry root lies in [0, s]. */
  lemma EntryBeforePoint(dd: real, p: real, ww: real, rr: real, root: real, s: real, disc: real)
    requires dd > 0.0 && ww > rr && 0.0 <= s
    requires disc == p * p - dd * (ww - rr) && (disc >= 0.0 ==> IsSqrt(root, disc))
    requires ww + 2.0 * s * p + s * s * dd <= rr
    ensures disc >= 0.0 && 0.0 <= -(p + root) / dd <= s
  {
    ScaledExcess(dd, p, ww, rr, s, disc);
    Closest.NonPositiveProduct(-dd, (ww - rr) + 2.0 * s * p + s * s * dd);
    Collisions.SquareSign(dd * s + p);
    assert Collisions.NonNegative((dd * s + p) * (dd * s + p));
    assert disc >= 0.0;
    Intersections.AbsWithin(dd * s + p, root);
    assert dd * s + p >= -root;
    EntryNotNegative(dd, p, ww, rr, root, s);
    DivideWithin(-(p + root), dd, s);
  }

  /** The entry root of a start outside the circle is not negative when a
      point s >= 0 of the line is inside it. */
  lemma EntryNotNegative(dd: real, p: real, ww: real, rr: real, root: real, s: real)
    requires dd > 0.0 && ww > rr && 0.0 <= s
    requires root >= 0.0 && root * root == p * p - dd * (ww - rr)
    requires dd * s + p <= root
    ensures p + root <= 0.0
  {
    Intersections.PositiveProduct(dd, ww - rr);
    assert root * root < p * p;
    Intersections.AbsWithin(p, root);
    assert Abs(p) > root;
    Closest.NonNegativeProduct(dd, s);
    assert p <= root;
  }

  /** For a positive divisor, 0 <= a <= b * s bounds a / b by [0, s]. */
  lemma DivideWithin(a: real, b: real, s: real)
    requires b > 0.0 && 0.0 <= a <= b * s
    ensures 0.0 <= a / b <= s
  {
    var q := a / b;
    assert q * b == a;
    if q > s {
      assert (q - s) * b > 0.0;
    }
  }

  /** With a direction of non-zero length, rayInCircle hits exactly when the
      corrected segmentInCircle says the segment meets the circle. */
  lemma {:induction false} CircleCastMeetsSegment(from: Point, to: Point, c: Disc, root: real)
    requires RootOf(from, to, c, root) && LengthSquared(Sub(to, from)) != 0.0
    ensures CircleCast(from, to, c, root).hit <==> Intersections.SegmentInCircle(from, to, c)
  {
    var t := CircleParameter(from, to, c, root);
    Intersections.SegmentInCircleExact(from, to, c, t);
    if Intersections.SegmentInCircle(from, to, c) {
      var q := Closest.SegmentClosest(c.center, from, to);
      var s :| 0.0 <= s <= 1.0 && q == PointAt(from, Sub(to, from), s);
      CircleCastFirst(from, to, c, root, s);
    }
  }

  // -------------------------------------------------------------- rectangles

  /** rayInRectangle: the slabs of both axes clip [0, 1]; a span left over
      is a hit at its start, no span a miss. It hits exactly when
      segmentInRectangle says the segment meets the rectangle, at a point of
      the rectangle, and at rayFrom when that is in the rectangle. */
  function RectangleCast(from: Point, to: Point, b: Box): (r: Cast)
    ensures r.hit <==> Intersections.SegmentInRectangle(from, to, b)
    ensures r.hit ==> r.point == PointAt(from, Sub(to, from), Intersections.SlabClip(from, to, b).value.lo)
    ensures r.hit ==> InBox(r.point, b)
    ensures !r.hit ==> r.point == to
    ensures InBox(from, b) ==> r == Cast(true, from)
  {
    Intersections.SegmentInRectangleExact(from, to, b, 0.0);
    Intersections.SlabClipExact(from, to, b, 0.0);
    StartIsParameterZero(from, Sub(to, from));
    match Intersections.SlabClip(from, to, b)
    case None => Cast(false, to)
    case Some(s) => Cast(true, PointAt(from, Sub(to, from), s.lo))
  }

  /** The contact point of rayInRectangle is the first point of the segment
      in the rectangle. */
  lemma {:induction false} RectangleCastFirst(from: Point, to: Point, b: Box, t: real)
    requires 0.0 <= t <= 1.0 && InBox(PointAt(from, Sub(to, from), t), b)
    ensures RectangleCast(from, to, b).hit
    ensures 0.0 <= Intersections.SlabClip(from, to, b).value.lo <= t
  {
    Intersections.SlabClipExact(from, to, b, t);
  }

  // ----------------------------------------------------------------- methods

  /** rayInPlane as written, directionY taken from the x coordinates. A zero
      projection with a non-zero distance is the float division that gives
      an infinite t. */
  method RayInPlane(rayFrom: Vector2D, rayTo: Vector2D, plane: Plane2D, contactPoint: Vector2D)
    returns (result: bool)
    modifies contactPoint
    ensures var r := PlaneCastAsWritten(old(rayFrom.Value()), old(rayTo.Value()), old(plane.Value()));
      result == r.hit && contactPoint.Value() == r.point
  {
    ghost var from, to, l := rayFrom.Value(), rayTo.Value(), plane.Value();
    var directionX := rayTo.x - rayFrom.x;
    var directionY := rayTo.x - rayFrom.x;
    var distance := (rayFrom.x * plane.normal.x) + (rayFrom.y * plane.normal.y) + plane.offset;
    var projection := (directionX * plane.normal.x) + (directionY * plane.normal.y);
    assert distance == SignedDistance(l, from) && projection == Dot(SlipDirection(from, to), l.normal);
    var finite := distance == 0.0 || projection != 0.0;
    var t := if distance != 0.0 && finite then -distance / projection else 0.0;
    result := finite && t >= 0.0 && t <= 1.0;
    WriteContact(result, rayFrom, rayTo, directionX, directionY, t, contactPoint);
  }

  /** The common tail of the routines: rayFrom + direction * t on a hit,
      rayTo otherwise. */
  method WriteContact(hit: bool, rayFrom: Vector2D, rayTo: Vector2D, directionX: real, directionY: real,
                      t: real, contactPoint: Vector2D)
    modifies contactPoint
    ensures hit ==> contactPoint.Value() == PointAt(old(rayFrom.Value()), Point(directionX, directionY), t)
    ensures !hit ==> contactPoint.Value() == old(rayTo.Value())
  {
    if hit {
      contactPoint.x := rayFrom.x + (directionX * t);
      contactPoint.y := rayFrom.y + (directionY * t);
    } else {
      contactPoint.x := rayTo.x;
      contactPoint.y := rayTo.y;
    }
  }

  /** rayInHalfspace as written, directionY taken from the x coordinates. */
  method RayInHalfspace(rayFrom: Vector2D, rayTo: Vector2D, halfspace: Plane2D, contactPoint: Vector2D)
    returns (result: bool)
    modifies contactPoint
    ensures var r := HalfspaceCastAsWritten(old(rayFrom.Value()), old(rayTo.Value()), old(halfspace.Value()));
      result == r.hit && contactPoint.Value() == r.point
  {
    ghost var from, to, l := rayFrom.Value(), rayTo.Value(), halfspace.Value();
    var directionX := rayTo.x - rayFrom.x;
    var directionY := rayTo.x - rayFrom.x;
    var distance := (rayFrom.x * halfspace.normal.x) + (rayFrom.y * halfspace.normal.y) + halfspace.offset;
    var projection := (directionX * halfspace.normal.x) + (directionY * halfspace.normal.y);
    assert distance == SignedDistance(l, from) && projection == Dot(SlipDirection(from, to), l.normal);
    distance := Max(0.0, distance);
    var finite := distance == 0.0 || projection != 0.0;
    var t := if distance != 0.0 && finite then -distance / projection else 0.0;
    result := finite && t >= 0.0 && t <= 1.0;
    WriteContact(result, rayFrom, rayTo, directionX, directionY, t, contactPoint);
  }

  /** rayInCircle as written, with the clamp of t to 0 whenever the line
      meets the circle; the square root of the discriminant is the
      parameter root. */
  method RayInCircle(rayFrom: Vector2D, rayTo: Vector2D, circle: Circle2D, root: real, contactPoint: Vector2D)
    returns (result: bool)
    requires RootOf(rayFrom.Value(), rayTo.Value(), circle.Value(), root)
    modifies contactPoint
    ensures var r := CircleCastAsWritten(old(rayFrom.Value()), old(rayTo.Value()), old(circle.Value()), root);
      result == r.hit && contactPoint.Value() == r.point
  {
    ghost var from, to, c := rayFrom.Value(), rayTo.Value(), circle.Value();
    var directionX := rayTo.x - rayFrom.x;
    var directionY := rayTo.y - rayFrom.y;
    var distanceX := rayFrom.x - circle.center.x;
    var distanceY := rayFrom.y - circle.center.y;
    var projection := (directionX * distanceX) + (directionY * distanceY);
    var projectionSquared := projection * projection;
    var distanceSquared := (distanceX * distanceX) + (distanceY * distanceY);
    var directionSquared := (directionX * directionX) + (directionY * directionY);
    var radiusSquared := circle.radius * circle.radius;
    var discriminant := projectionSquared - (directionSquared * (distanceSquared - radiusSquared));
    assert Point(directionX, directionY) == Sub(to, from) && Point(distanceX, distanceY) == Sub(from, c.center);
    assert projection == Dot(Sub(to, from), Sub(from, c.center));
    assert distanceSquared == LengthSquared(Sub(from, c.center));
    assert directionSquared == LengthSquared(Sub(to, from));
    assert discriminant == CircleDiscriminant(from, to, c);

    var t := if distanceSquared <= radiusSquared then 0.0 else FloatMax;
    if discriminant >= 0.0 && directionSquared != 0.0 {
      t := -(projection + root) / directionSquared;
      t := Max(0.0, t);
    }
    assert t == CircleParameterAsWritten(from, to, c, root);
    result := t >= 0.0 && t <= 1.0;
    WriteContact(result, rayFrom, rayTo, directionX, directionY, t, contactPoint);
  }

  /** One axis of rayInRectangle: a zero direction rejects a start outside
      the slab, any other direction narrows [tMin, tMax] to the parameters
      inside the slab and rejects an empty span. */
  method NarrowSlab(start: real, direction: real, lo: real, hi: real, tMin: real, tMax: real)
    returns (ok: bool, newMin: real, newMax: real)
    ensures var s := Intersections.NarrowAxis(start, direction, lo, hi, Intersections.Span(tMin, tMax));
      (ok <==> s.Some?) && (ok ==> s.value == Intersections.Span(newMin, newMax))
  {
    newMin, newMax := tMin, tMax;
    if direction == 0.0 {
      ok := !(start < lo || start > hi);
    } else {
      var t1, t2;
      var denominator := 1.0 / direction;
      if denominator > 0.0 {
        t1 := (lo - start) * denominator;
        t2 := (hi - start) * denominator;
      } else {
        t1 := (hi - start) * denominator;
        t2 := (lo - start) * denominator;
      }
      assert t1 == Intersections.EntryParameter(start, direction, lo, hi);
      assert t2 == Intersections.ExitParameter(start, direction, lo, hi);
      newMin := Max(tMin, t1);
      newMax := Min(tMax, t2);
      ok := !(newMin > newMax);
    }
  }

  /** rayInRectangle. The routine writes rayTo to the contact point before it
      reads rayFrom and the rectangle again, so the contact point must be
      none of them. */
  method RayInRectangle(rayFrom: Vector2D, rayTo: Vector2D, rectangle: Rectangle2D, contactPoint: Vector2D)
    returns (result: bool)
    requires contactPoint != rayFrom && contactPoint != rectangle.min && contactPoint != rectangle.max
    modifies contactPoint
    ensures var r := RectangleCast(old(rayFrom.Value()), old(rayTo.Value()), old(rectangle.Value()));
      result == r.hit && contactPoint.Value() == r.point
  {
    ghost var from, to, b := rayFrom.Value(), rayTo.Value(), rectangle.Value();
    var directionX := rayTo.x - rayFrom.x;
    var directionY := rayTo.y - rayFrom.y;
    var tMin, tMax := 0.0, 1.0;
    contactPoint.x := rayTo.x;
    contactPoint.y := rayTo.y;
    assert rayFrom.Value() == from && rectangle.Value() == b && contactPoint.Value() == to;
    assert Point(directionX, directionY) == Sub(to, from);

    var ok;
    ok, tMin, tMax := NarrowSlab(rayFrom.x, directionX, rectangle.min.x, rectangle.max.x, tMin, tMax);
    ghost var first := Intersections.NarrowAxis(from.x, to.x - from.x, b.min.x, b.max.x, Intersections.Span(0.0, 1.0));
    if !ok {
      assert Intersections.SlabClip(from, to, b).None?;
      assert RectangleCast(from, to, b) == Cast(false, to);
      return false;
    }
    assert first == Some(Intersections.Span(tMin, tMax));
    ok, tMin, tMax := NarrowSlab(rayFrom.y, directionY, rectangle.min.y, rectangle.max.y, tMin, tMax);
    if !ok {
      assert Intersections.SlabClip(from, to, b).None?;
      assert RectangleCast(from, to, b) == Cast(false, to);
      return false;
    }
    assert Intersections.SlabClip(from, to, b) == Some(Intersections.Span(tMin, tMax));

    ghost var hit := PointAt(from, Point(directionX, directionY), tMin);
    assert RectangleCast(from, to, b) == Cast(true, hit);
    assert rayFrom.Value() == from;
    WriteContact(true, rayFrom, rayTo, directionX, directionY, tMin, contactPoint);
    return true;
  }
}
