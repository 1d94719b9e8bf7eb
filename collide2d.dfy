/** Collide2D: the contact information — normal, tangent and penetration
    depth — between a shape and another shape it overlaps. Every routine
    writes a Contact2D. Here each one is first a function giving the Manifold
    it writes, with what that contact means proved about it, and then a
    method that writes the contact's fields as the routine does. The routines
    assume valid shapes: unit normals, non-negative radii, ordered corners. */
module Collisions {
  import opened Scalars
  import opened Vectors
  import opened Planes
  import opened Circles
  import opened Rectangles
  import opened Contacts
  import Closest
  import Intersections

  /** The contact with normal n, the tangent every routine derives from it,
      and depth d. */
  function Along(n: Point, d: real): (m: Manifold)
    ensures m.normal == n && m.tangent == TangentOf(n) && m.depth == d
  {
    Manifold(n, TangentOf(n), d)
  }

  lemma DotScaled(u: Point, s: real)
    ensures Dot(u, Scale(u, s)) == s * LengthSquared(u)
  {
    assert u.x * (u.x * s) + u.y * (u.y * s) == s * (u.x * u.x + u.y * u.y);
  }

  predicate Positive(v: real) { v > 0.0 }

  predicate NonNegative(v: real) { v >= 0.0 }

  /** A square is never negative, and positive unless its root is zero. */
  lemma SquareSign(a: real)
    ensures NonNegative(a * a) && (a != 0.0 ==> Positive(a * a))
  {
    if a < 0.0 {
      assert a * a == (-a) * (-a);
    }
  }

  lemma ZeroLength(w: Point)
    requires LengthSquared(w) == 0.0
    ensures w.x == 0.0 && w.y == 0.0
  {
    var a, b := w.x, w.y;
    assert a * a + b * b == 0.0;
    SquareSign(a);
    SquareSign(b);
  }

  /** The normalized vector's projection on the vector is its length. */
  lemma {:induction false} NormalProjection(w: Point, root: real)
    requires IsSqrt(root, LengthSquared(w))
    ensures Dot(Normalized(w, root), w) == root
  {
    var u := Normalized(w, root);
    if LengthSquared(w) != 0.0 {
      assert Scale(u, root) == w;
      DotScaled(u, root);
    } else {
      ZeroLength(w);
      SquareSign(root);
    }
  }

  /** Moving p by k along a unit normal changes its signed distance by k. */
  lemma {:induction false} PushAlongNormal(l: Line, p: Point, k: real)
    requires LengthSquared(l.normal) == 1.0
    ensures SignedDistance(l, PointAt(p, l.normal, k)) == SignedDistance(l, p) + k
  {
    var n := l.normal;
    assert SignedDistance(l, PointAt(p, n, k)) == SignedDistance(l, p) + k * (n.x * n.x + n.y * n.y);
  }

  // ------------------------------------------------------------------ planes

  /** The line l described from the side p is on: normal and offset negated
      when p is behind l, l itself otherwise. */
  function Facing(l: Line, p: Point): (f: Line)
    ensures SignedDistance(f, p) == Abs(SignedDistance(l, p))
    ensures f.normal == l.normal || f.normal == Neg(l.normal)
    ensures LengthSquared(f.normal) == LengthSquared(l.normal)
  {
    NegatedLine(l, p);
    if SignedDistance(l, p) < 0.0 then Line(Neg(l.normal), -l.offset) else l
  }

  /** Negating normal and offset negates every signed distance. */
  lemma NegatedLine(l: Line, q: Point)
    ensures SignedDistance(Line(Neg(l.normal), -l.offset), q) == -SignedDistance(l, q)
    ensures LengthSquared(Neg(l.normal)) == LengthSquared(l.normal)
  {
    var n := l.normal;
    assert q.x * -n.x == -(q.x * n.x) && q.y * -n.y == -(q.y * n.y);
    assert -n.x * -n.x == n.x * n.x && -n.y * -n.y == n.y * n.y;
  }

  /** The turned line has the same points as l. */
  lemma FacingSameLine(l: Line, p: Point, q: Point)
    ensures SignedDistance(Facing(l, p), q) == 0.0 <==> SignedDistance(l, q) == 0.0
  {
    if SignedDistance(l, p) < 0.0 {
      assert Facing(l, p) == Line(Neg(l.normal), -l.offset);
      NegatedLine(l, q);
    }
  }

  /** The turned normal, projected on the way from the point's nearest
      point of the line to the point, gives the point's distance. */
  lemma {:induction false} FacingProjection(l: Line, p: Point)
    ensures LengthSquared(l.normal) == 1.0 ==>
      Dot(Facing(l, p).normal, Sub(p, Closest.PlaneClosest(l, p))) == Abs(SignedDistance(l, p))
  {
    var n, s := l.normal, SignedDistance(l, p);
    var v := Scale(n, s);
    assert Sub(p, Closest.PlaneClosest(l, p)) == v;
    DotScaled(n, s);
    assert Dot(Neg(n), v) == -Dot(n, v);
  }

  /** pointInPlane: the plane's normal turned towards the point, no depth.
      The normal points from the point's nearest point of the line to the
      point. */
  function PointInPlaneContact(p: Point, l: Line): (m: Manifold)
    ensures Consistent(m) && m.depth == 0.0 && m.normal == Facing(l, p).normal
    ensures LengthSquared(l.normal) == 1.0 ==>
      Dot(m.normal, Sub(p, Closest.PlaneClosest(l, p))) == Abs(SignedDistance(l, p))
  {
    var distance := SignedDistance(l, p);
    FacingProjection(l, p);
    if distance < 0.0 then Along(Neg(l.normal), 0.0) else Along(l.normal, 0.0)
  }

  /** pointInHalfspace: the halfspace's normal, and how far the point is
      inside the halfspace. */
  function PointInHalfspaceContact(p: Point, l: Line): (m: Manifold)
    ensures Consistent(m) && m.normal == l.normal
    ensures m.depth > 0.0 <==> SignedDistance(l, p) < 0.0
    ensures m.depth > 0.0 ==> Intersections.PointInHalfspace(p, l)
  {
    Along(l.normal, Max(0.0, -SignedDistance(l, p)))
  }

  /** Pushing the point by the depth along the unit normal brings a point of
      the halfspace to its boundary and leaves a point outside where it is. */
  lemma {:induction false} PointInHalfspaceResolves(p: Point, l: Line)
    requires LengthSquared(l.normal) == 1.0
    ensures SignedDistance(l, PointAt(p, PointInHalfspaceContact(p, l).normal, PointInHalfspaceContact(p, l).depth))
      == Max(0.0, SignedDistance(l, p))
  {
    PushAlongNormal(l, p, PointInHalfspaceContact(p, l).depth);
  }

  /** circleInPlane: the plane's normal turned towards the center; the depth
      is how far the circle reaches across the line. */
  function CircleInPlaneContact(c: Disc, l: Line): (m: Manifold)
    ensures m.normal == Facing(l, c.center).normal && m.tangent == TangentOf(m.normal)
    ensures m.depth == Max(0.0, c.radius - Abs(SignedDistance(l, c.center)))
    ensures m.depth > 0.0 ==> Intersections.CircleInPlane(c, l)
    ensures Intersections.CircleInPlane(c, l) ==> m.depth == c.radius - Abs(SignedDistance(l, c.center))
  {
    var distance := SignedDistance(l, c.center);
    if distance < 0.0 then Along(Neg(l.normal), Max(0.0, c.radius + distance))
    else Along(l.normal, Max(0.0, c.radius - distance))
  }

  /** Pushing the center by the depth along the unit contact normal leaves
      it at least the radius away from the line, on its own side: the circle
      then only touches the line. */
  lemma {:induction false} CircleInPlaneResolves(c: Disc, l: Line)
    requires LengthSquared(l.normal) == 1.0
    ensures SignedDistance(Facing(l, c.center),
        PointAt(c.center, CircleInPlaneContact(c, l).normal, CircleInPlaneContact(c, l).depth))
      == Max(Abs(SignedDistance(l, c.center)), c.radius)
  {
    var f, m := Facing(l, c.center), CircleInPlaneContact(c, l);
    PushAlongNormal(f, c.center, m.depth);
  }

  /** circleInHalfspace: the halfspace's normal; the depth is how far the
      circle reaches into the halfspace. */
  function CircleInHalfspaceContact(c: Disc, l: Line): (m: Manifold)
    ensures Consistent(m) && m.normal == l.normal
    ensures m.depth > 0.0 ==> Intersections.CircleInHalfspace(c, l)
    ensures Intersections.CircleInHalfspace(c, l) ==> m.depth == c.radius - SignedDistance(l, c.center)
  {
    Along(l.normal, Max(0.0, c.radius - SignedDistance(l, c.center)))
  }

  /** Pushing the center by the depth along the unit normal leaves the
      circle at most touching the halfspace. */
  lemma {:induction false} CircleInHalfspaceResolves(c: Disc, l: Line)
    requires LengthSquared(l.normal) == 1.0
    ensures SignedDistance(l,
        PointAt(c.center, CircleInHalfspaceContact(c, l).normal, CircleInHalfspaceContact(c, l).depth))
      == Max(SignedDistance(l, c.center), c.radius)
  {
    PushAlongNormal(l, c.center, CircleInHalfspaceContact(c, l).depth);
  }

  // ----------------------------------------------------------------- circles

  /** pointInCircle: the unit normal from the center towards the point
      ((1, 0) for a point at the center) and how far inside the circle the
      point is, root being Math.sqrt of the squared distance. */
  function PointInCircleContact(p: Point, c: Disc, root: real): (m: Manifold)
    requires IsSqrt(root, LengthSquared(Sub(p, c.center)))
    ensures Consistent(m) && LengthSquared(m.normal) == 1.0
    ensures m.depth == Max(0.0, c.radius - root)
    ensures LengthSquared(Sub(p, c.center)) != 0.0 ==> Scale(m.normal, root) == Sub(p, c.center)
    ensures LengthSquared(Sub(p, c.center)) == 0.0 ==> m.normal == Point(1.0, 0.0)
  {
    var w := Sub(p, c.center);
    var n := Normalized(w, root);
    NormalProjection(w, root);
    Along(n, Max(0.0, c.radius - Dot(n, w)))
  }

  /** A positive depth means the point is in the circle, and for a circle of
      non-negative radius a point in it has depth radius minus distance. */
  lemma {:induction false} PointInCircleDepth(p: Point, c: Disc, root: real)
    requires IsSqrt(root, LengthSquared(Sub(p, c.center)))
    ensures PointInCircleContact(p, c, root).depth > 0.0 ==> Intersections.PointInCircle(p, c)
    ensures c.radius >= 0.0 && Intersections.PointInCircle(p, c) ==>
      PointInCircleContact(p, c, root).depth == c.radius - root
  {
    var m := PointInCircleContact(p, c, root);
    if c.radius >= 0.0 {
      Intersections.SquareOrder(root, c.radius);
    } else {
      assert m.depth == 0.0;
    }
  }

  /** Pushing a point inside the circle by the depth along the normal puts
      it on the circle, radius away from the center in the same direction. */
  lemma {:induction false} PointInCircleResolves(p: Point, c: Disc, root: real)
    requires IsSqrt(root, LengthSquared(Sub(p, c.center)))
    requires LengthSquared(Sub(p, c.center)) != 0.0 && root <= c.radius
    ensures var m := PointInCircleContact(p, c, root);
      Sub(PointAt(p, m.normal, m.depth), c.center) == Scale(m.normal, c.radius)
  {
    var m := PointInCircleContact(p, c, root);
    var u, d := m.normal, m.depth;
    assert d == c.radius - root;
    ScaledSum(p, c.center, u, root, d);
  }

  lemma ScaledSum(p: Point, q: Point, u: Point, a: real, b: real)
    requires Scale(u, a) == Sub(p, q)
    ensures Sub(PointAt(p, u, b), q) == Scale(u, a + b)
  {
    assert u.x * (a + b) == u.x * a + u.x * b;
    assert u.y * (a + b) == u.y * a + u.y * b;
  }

  /** circleInCircle: the contact of the first center with the second circle
      grown by the first radius, root being the distance between the centers. */
  function CircleInCircleContact(c1: Disc, c2: Disc, root: real): (m: Manifold)
    requires IsSqrt(root, LengthSquared(Sub(c1.center, c2.center)))
    ensures m == PointInCircleContact(c1.center, Disc(c2.center, c1.radius + c2.radius), root)
  {
    var w := Sub(c1.center, c2.center);
    var n := Normalized(w, root);
    Along(n, Max(0.0, (c1.radius + c2.radius) - Dot(n, w)))
  }

  /** A positive depth means the circles overlap, and overlapping circles of
      non-negative radii have depth the sum of the radii minus the distance. */
  lemma {:induction false} CircleInCircleDepth(c1: Disc, c2: Disc, root: real)
    requires IsSqrt(root, LengthSquared(Sub(c1.center, c2.center)))
    ensures CircleInCircleContact(c1, c2, root).depth > 0.0 ==> Intersections.CircleInCircle(c1, c2)
    ensures c1.radius + c2.radius >= 0.0 && Intersections.CircleInCircle(c1, c2) ==>
      CircleInCircleContact(c1, c2, root).depth == c1.radius + c2.radius - root
  {
    var grown := Disc(c2.center, c1.radius + c2.radius);
    PointInCircleDepth(c1.center, grown, root);
    Intersections.DistanceSymmetric(c1.center, c2.center);
  }

  // -------------------------------------------------------------- rectangles

  /** v is at most each of the four overlaps. */
  predicate Least(v: real, a: real, b: real, c: real, d: real)
  {
    v <= a && v <= b && v <= c && v <= d
  }

  /** The normal the rectangle routines choose from the overlaps on both
      sides of each axis: along the axis of the smaller overlap, away from
      the side of the smaller overlap. */
  function AxisNormal(dx1: real, dx2: real, dy1: real, dy2: real): Point
  {
    var distanceX := Min(dx1, dx2);
    var distanceY := Min(dy1, dy2);
    if distanceX < distanceY then Point(if dx1 < dx2 then -1.0 else 1.0, 0.0)
    else Point(0.0, if dy1 < dy2 then -1.0 else 1.0)
  }

  /** The smallest of the four overlaps. */
  function LeastOverlap(dx1: real, dx2: real, dy1: real, dy2: real): real
  {
    Min(Min(dx1, dx2), Min(dy1, dy2))
  }

  /** The contact the rectangle routines build from the four overlaps. */
  function AxisContact(dx1: real, dx2: real, dy1: real, dy2: real): (m: Manifold)
    ensures Consistent(m)
  {
    Along(AxisNormal(dx1, dx2, dy1, dy2), Max(0.0, LeastOverlap(dx1, dx2, dy1, dy2)))
  }

  /** The normal names a side whose overlap is the least of the four. */
  lemma {:induction false} AxisNormalChoice(dx1: real, dx2: real, dy1: real, dy2: real, n: Point, v: real)
    requires n == AxisNormal(dx1, dx2, dy1, dy2) && v == LeastOverlap(dx1, dx2, dy1, dy2)
    ensures n == Point(-1.0, 0.0) || n == Point(1.0, 0.0) || n == Point(0.0, -1.0) || n == Point(0.0, 1.0)
    ensures n == Point(-1.0, 0.0) ==> v == dx1
    ensures n == Point(1.0, 0.0) ==> v == dx2
    ensures n == Point(0.0, -1.0) ==> v == dy1
    ensures n == Point(0.0, 1.0) ==> v == dy2
    ensures Least(v, dx1, dx2, dy1, dy2)
  {
    var dx, dy := Min(dx1, dx2), Min(dy1, dy2);
    if dx < dy {
      assert v == dx;
      if dx1 < dx2 {
        assert n == Point(-1.0, 0.0) && dx == dx1;
      } else {
        assert n == Point(1.0, 0.0) && dx == dx2;
      }
    } else {
      assert v == dy;
      if dy1 < dy2 {
        assert n == Point(0.0, -1.0) && dy == dy1;
      } else {
        assert n == Point(0.0, 1.0) && dy == dy2;
      }
    }
  }

  /** pointInRectangle: the way out of the rectangle through its nearest side. */
  function PointInRectangleContact(p: Point, b: Box): (m: Manifold)
    ensures Consistent(m)
  {
    AxisContact(p.x - b.min.x, b.max.x - p.x, p.y - b.min.y, b.max.y - p.y)
  }

  /** p is inside the rectangle and on none of its sides. */
  predicate StrictlyInside(p: Point, b: Box)
  {
    b.min.x < p.x < b.max.x && b.min.y < p.y < b.max.y
  }

  /** q is a point of one of the rectangle's sides. */
  predicate OnSide(q: Point, b: Box)
  {
    InBox(q, b) && (q.x == b.min.x || q.x == b.max.x || q.y == b.min.y || q.y == b.max.y)
  }

  /** The least overlap is one of the four. */
  lemma LeastOverlapIsOne(dx1: real, dx2: real, dy1: real, dy2: real, v: real)
    requires v == LeastOverlap(dx1, dx2, dy1, dy2)
    ensures Least(v, dx1, dx2, dy1, dy2) && (v == dx1 || v == dx2 || v == dy1 || v == dy2)
  {
  }

  /** The depth is positive exactly for points strictly inside. */
  lemma {:induction false} PointInRectangleDepth(p: Point, b: Box)
    ensures PointInRectangleContact(p, b).depth > 0.0 <==> StrictlyInside(p, b)
  {
    var dx1, dx2, dy1, dy2 := p.x - b.min.x, b.max.x - p.x, p.y - b.min.y, b.max.y - p.y;
    var v := LeastOverlap(dx1, dx2, dy1, dy2);
    LeastOverlapIsOne(dx1, dx2, dy1, dy2, v);
    assert PointInRectangleContact(p, b).depth == Max(0.0, v);
  }

  /** For a point of the rectangle, the depth is at most its distance to
      each side, and pushing it by the depth along the normal puts it on a
      side: the shortest way out. */
  lemma {:induction false} PointInRectangleResolves(p: Point, b: Box)
    requires InBox(p, b)
    ensures var m := PointInRectangleContact(p, b);
      Least(m.depth, p.x - b.min.x, b.max.x - p.x, p.y - b.min.y, b.max.y - p.y) &&
      OnSide(PointAt(p, m.normal, m.depth), b)
  {
    var dx1, dx2, dy1, dy2 := p.x - b.min.x, b.max.x - p.x, p.y - b.min.y, b.max.y - p.y;
    var n, v := AxisNormal(dx1, dx2, dy1, dy2), LeastOverlap(dx1, dx2, dy1, dy2);
    var m := PointInRectangleContact(p, b);
    assert m.normal == n && m.depth == Max(0.0, v);
    AxisNormalChoice(dx1, dx2, dy1, dy2, n, v);
    PushedOnSide(p, b, n, v);
  }

  lemma PushedOnSide(p: Point, b: Box, n: Point, v: real)
    requires InBox(p, b)
    requires n == Point(-1.0, 0.0) || n == Point(1.0, 0.0) || n == Point(0.0, -1.0) || n == Point(0.0, 1.0)
    requires n == Point(-1.0, 0.0) ==> v == p.x - b.min.x
    requires n == Point(1.0, 0.0) ==> v == b.max.x - p.x
    requires n == Point(0.0, -1.0) ==> v == p.y - b.min.y
    requires n == Point(0.0, 1.0) ==> v == b.max.y - p.y
    ensures OnSide(PointAt(p, n, v), b)
  {
    var q := PointAt(p, n, v);
    if n == Point(-1.0, 0.0) {
      assert q == Point(b.min.x, p.y);
    } else if n == Point(1.0, 0.0) {
      assert q == Point(b.max.x, p.y);
    } else if n == Point(0.0, -1.0) {
      assert q == Point(p.x, b.min.y);
    } else {
      assert q == Point(p.x, b.max.y);
    }
  }

  /** The rectangle b grown by e.x on both sides of the x axis and by e.y on
      both sides of the y axis. */
  function Expanded(b: Box, e: Point): Box
  {
    Box(Sub(b.min, e), Add(b.max, e))
  }

  /** p is beyond the rectangle on both axes: its nearest point of the
      rectangle is a corner. */
  predicate BeyondCorner(p: Point, b: Box)
  {
    (p.x < b.min.x || p.x > b.max.x) && (p.y < b.min.y || p.y > b.max.y)
  }

  /** circleInRectangle: a center beyond a corner gets the contact of the
      center with the circle of the circle's radius around that corner, root
      being Math.sqrt of the squared distance from the center to its nearest
      point of the rectangle; any other center gets the contact of the center
      with the rectangle grown by the radius. */
  function CircleInRectangleContact(c: Disc, b: Box, root: real): (m: Manifold)
    requires IsSqrt(root, LengthSquared(Sub(c.center, Closest.RectangleClosest(c.center, b))))
    ensures Consistent(m)
    ensures BeyondCorner(c.center, b) ==>
      m == PointInCircleContact(c.center, Disc(Closest.RectangleClosest(c.center, b), c.radius), root)
    ensures !BeyondCorner(c.center, b) ==>
      m == PointInRectangleContact(c.center, Expanded(b, Point(c.radius, c.radius)))
  {
    var p, e := c.center, c.radius;
    if BeyondCorner(p, b) then
      var w := Sub(p, Closest.RectangleClosest(p, b));
      var n := Normalized(w, root);
      Along(n, Max(0.0, e - Dot(n, w)))
    else
      var grown := Expanded(b, Point(e, e));
      assert (p.x + e) - b.min.x == p.x - grown.min.x && b.max.x - (p.x - e) == grown.max.x - p.x;
      assert (p.y + e) - b.min.y == p.y - grown.min.y && b.max.y - (p.y - e) == grown.max.y - p.y;
      AxisContact((p.x + e) - b.min.x, b.max.x - (p.x - e), (p.y + e) - b.min.y, b.max.y - (p.y - e))
  }

  /** A positive depth means the circle overlaps the rectangle. */
  lemma {:induction false} CircleInRectangleDepth(c: Disc, b: Box, root: real)
    requires IsSqrt(root, LengthSquared(Sub(c.center, Closest.RectangleClosest(c.center, b))))
    requires WellFormed(b) && c.radius >= 0.0
    ensures CircleInRectangleContact(c, b, root).depth > 0.0 ==> Intersections.CircleInRectangle(c, b)
  {
    var m := CircleInRectangleContact(c, b, root);
    var closest := Closest.RectangleClosest(c.center, b);
    if m.depth > 0.0 {
      if BeyondCorner(c.center, b) {
        PointInCircleDepth(c.center, Disc(closest, c.radius), root);
        Intersections.DistanceSymmetric(c.center, closest);
      } else {
        PointInRectangleDepth(c.center, Expanded(b, Point(c.radius, c.radius)));
        EdgeOverlap(c, b);
      }
    }
  }

  /** A center within the rectangle's span on one axis and strictly inside
      the rectangle grown by the radius is within the radius of the
      rectangle. */
  lemma {:induction false} EdgeOverlap(c: Disc, b: Box)
    requires WellFormed(b) && c.radius >= 0.0 && !BeyondCorner(c.center, b)
    requires StrictlyInside(c.center, Expanded(b, Point(c.radius, c.radius)))
    ensures Intersections.CircleInRectangle(c, b)
  {
    var p, r := c.center, c.radius;
    var q := Closest.RectangleClosest(p, b);
    AxisGap(p.x, b.min.x, b.max.x, r);
    AxisGap(p.y, b.min.y, b.max.y, r);
    Intersections.DistanceSymmetric(q, p);
    if b.min.x <= p.x <= b.max.x {
      OneAxisWithin(p.x - q.x, p.y - q.y, r);
    } else {
      OneAxisWithin(p.y - q.y, p.x - q.x, r);
    }
  }

  /** A displacement that is zero on one axis and within r on the other is
      within r. */
  lemma OneAxisWithin(a: real, v: real, r: real)
    requires a == 0.0 && r >= 0.0 && Abs(v) <= r
    ensures a * a + v * v <= r * r && v * v + a * a <= r * r
  {
    Intersections.AbsWithin(v, r);
  }

  /** On one axis: a coordinate strictly within r of the span is at most r
      from its clamped value, and one within the span is its clamped value. */
  lemma AxisGap(v: real, lo: real, hi: real, r: real)
    requires lo <= hi && r >= 0.0 && lo - r < v < hi + r
    ensures Abs(v - Closest.ClampAxis(v, lo, hi)) <= r
    ensures lo <= v <= hi ==> Closest.ClampAxis(v, lo, hi) == v
  {
  }

  /** rectangleInPlane: the plane's normal turned towards the rectangle's
      center; the depth is how far the rectangle reaches across the line.
      When the rectangle crosses the line, its corner nearest along the
      contact normal lies the depth behind the turned line. */
  function RectangleInPlaneContact(b: Box, l: Line): (m: Manifold)
    ensures Consistent(m) && m.normal == Facing(l, Center(b)).normal
    ensures m.depth == Max(0.0, ProjectedExtent(b, l.normal) - Abs(SignedDistance(l, Center(b))))
    ensures m.depth > 0.0 ==> Intersections.RectangleInPlane(b, l)
    ensures Intersections.RectangleInPlane(b, l) ==>
      SignedDistance(Facing(l, Center(b)), NearCorner(b, m.normal)) == -m.depth
  {
    var projection := ProjectedExtent(b, l.normal);
    var distance := SignedDistance(l, Center(b));
    FacingCorner(b, l);
    var n := if distance < 0.0 then Neg(l.normal) else l.normal;
    Along(n, Max(0.0, projection - Abs(distance)))
  }

  /** Measured from the turned line, the nearest corner along the turned
      normal is the center's distance less the projected extent. */
  lemma {:induction false} FacingCorner(b: Box, l: Line)
    ensures var f := Facing(l, Center(b));
      SignedDistance(f, NearCorner(b, f.normal)) ==
        Abs(SignedDistance(l, Center(b))) - ProjectedExtent(b, l.normal)
  {
    var f := Facing(l, Center(b));
    Intersections.CornerDistances(b, f);
    NegatedExtent(b, l.normal);
  }

  /** The projected extent does not depend on the normal's sense. */
  lemma NegatedExtent(b: Box, n: Point)
    ensures ProjectedExtent(b, Neg(n)) == ProjectedExtent(b, n)
  {
    assert Abs(-n.x) == Abs(n.x) && Abs(-n.y) == Abs(n.y);
  }

  /** rectangleInHalfspace: the contact of the rectangle's corner deepest in
      the halfspace. */
  function RectangleInHalfspaceContact(b: Box, l: Line): (m: Manifold)
    ensures m == PointInHalfspaceContact(NearCorner(b, l.normal), l)
    ensures m.depth > 0.0 ==> Intersections.RectangleInHalfspace(b, l)
  {
    var projection := ProjectedExtent(b, l.normal);
    var distance := SignedDistance(l, Center(b));
    Intersections.CornerDistances(b, l);
    Along(l.normal, Max(0.0, projection - distance))
  }

  /** rectangleInRectangle: the contact of the first rectangle's center with
      the second rectangle grown by the first one's extent. */
  function RectangleInRectangleContact(b1: Box, b2: Box): (m: Manifold)
    ensures m == PointInRectangleContact(Center(b1), Expanded(b2, Extent(b1)))
  {
    var c, e, grown := Center(b1), Extent(b1), Expanded(b2, Extent(b1));
    assert b1.max.x - b2.min.x == c.x - grown.min.x && b2.max.x - b1.min.x == grown.max.x - c.x;
    assert b1.max.y - b2.min.y == c.y - grown.min.y && b2.max.y - b1.min.y == grown.max.y - c.y;
    AxisContact(b1.max.x - b2.min.x, b2.max.x - b1.min.x, b1.max.y - b2.min.y, b2.max.y - b1.min.y)
  }

  /** Two rectangles overlap exactly when the first one's center is in the
      second one grown by the first one's extent; so a positive depth means
      they overlap. */
  lemma {:induction false} RectangleInRectangleByCenter(b1: Box, b2: Box)
    ensures InBox(Center(b1), Expanded(b2, Extent(b1))) <==> Intersections.RectangleInRectangle(b1, b2)
    ensures RectangleInRectangleContact(b1, b2).depth > 0.0 ==> Intersections.RectangleInRectangle(b1, b2)
  {
    var c, e := Center(b1), Extent(b1);
    assert c.x + e.x == b1.max.x && c.x - e.x == b1.min.x;
    assert c.y + e.y == b1.max.y && c.y - e.y == b1.min.y;
    PointInRectangleDepth(c, Expanded(b2, e));
  }

  // ----------------------------------------------------------------- methods
  // Each routine writes the contact's normal, tangent and depth in the
  // order the source does; the contact's vectors may be the shapes' own
  // vectors only where the routine reads nothing more after writing them.

  /** pointInPlane */
  method PointInPlane(point: Vector2D, plane: Plane2D, contact: Contact2D)
    requires contact.Valid()
    modifies contact, contact.normal, contact.tangent
    ensures contact.Value() == PointInPlaneContact(old(point.Value()), old(plane.Value()))
  {
    ghost var p, l := point.Value(), plane.Value();
    var distance := (point.x * plane.normal.x) + (point.y * plane.normal.y) + plane.offset;
    if distance < 0.0 {
      contact.normal.x := -plane.normal.x;
      contact.normal.y := -plane.normal.y;
    } else {
      contact.normal.x := plane.normal.x;
      contact.normal.y := plane.normal.y;
    }
    contact.tangent.x := contact.normal.y;
    contact.tangent.y := -contact.normal.x;
    contact.depth := 0.0;
    assert contact.normal.Value() == Facing(l, p).normal;
  }

  /** pointInHalfspace */
  method PointInHalfspace(point: Vector2D, halfspace: Plane2D, contact: Contact2D)
    requires contact.Valid()
    requires point != contact.normal && point != contact.tangent && halfspace.normal != contact.tangent
    modifies contact, contact.normal, contact.tangent
    ensures contact.Value() == PointInHalfspaceContact(old(point.Value()), old(halfspace.Value()))
  {
    contact.normal.x := halfspace.normal.x;
    contact.normal.y := halfspace.normal.y;
    contact.tangent.x := contact.normal.y;
    contact.tangent.y := -contact.normal.x;

    var distance := (point.x * halfspace.normal.x) + (point.y * halfspace.normal.y) + halfspace.offset;
    contact.depth := Max(0.0, -distance);
  }

  /** pointInCircle; root is Math.sqrt of the squared distance from the
      center to the point, as normalize() takes it. */
  method PointInCircle(point: Vector2D, circle: Circle2D, root: real, contact: Contact2D)
    requires contact.Valid()
    requires IsSqrt(root, LengthSquared(Sub(point.Value(), circle.center.Value())))
    modifies contact, contact.normal, contact.tangent
    ensures contact.Value() == PointInCircleContact(old(point.Value()), old(circle.Value()), root)
  {
    ghost var p, c := point.Value(), circle.Value();
    ghost var w := Sub(p, c.center);
    var distanceX := point.x - circle.center.x;
    var distanceY := point.y - circle.center.y;
    assert Point(distanceX, distanceY) == w;
    contact.normal.x := distanceX;
    contact.normal.y := distanceY;
    assert contact.normal.Value() == w;
    contact.normal.Normalize(root);
    ghost var n := contact.normal.Value();
    assert n == Normalized(w, root);
    contact.tangent.x := contact.normal.y;
    contact.tangent.y := -contact.normal.x;

    var distance := Dot(contact.normal.Value(), Point(distanceX, distanceY));
    assert distance == Dot(n, Point(distanceX, distanceY));
    contact.depth := Max(0.0, circle.radius - distance);
    assert contact.Value() == Along(n, Max(0.0, c.radius - Dot(n, w)));
  }

  /** pointInRectangle */
  method PointInRectangle(point: Vector2D, rectangle: Rectangle2D, contact: Contact2D)
    requires contact.Valid()
    modifies contact, contact.normal, contact.tangent
    ensures contact.Value() == PointInRectangleContact(old(point.Value()), old(rectangle.Value()))
  {
    var distanceX1 := point.x - rectangle.min.x;
    var distanceY1 := point.y - rectangle.min.y;
    var distanceX2 := rectangle.max.x - point.x;
    var distanceY2 := rectangle.max.y - point.y;
    WriteAxisContact(distanceX1, distanceX2, distanceY1, distanceY2, contact);
  }

  /** The tail the rectangle routines share: the normal of the smaller
      overlap, its tangent, and the least overlap as depth. */
  method WriteAxisContact(distanceX1: real, distanceX2: real, distanceY1: real, distanceY2: real,
                          contact: Contact2D)
    requires contact.Valid()
    modifies contact, contact.normal, contact.tangent
    ensures contact.Value() == AxisContact(distanceX1, distanceX2, distanceY1, distanceY2)
  {
    var distanceX := Min(distanceX1, distanceX2);
    var distanceY := Min(distanceY1, distanceY2);
    var distance := Min(distanceX, distanceY);

    if distanceX < distanceY {
      contact.normal.x := if distanceX1 < distanceX2 then -1.0 else 1.0;
      contact.normal.y := 0.0;
    } else {
      contact.normal.x := 0.0;
      contact.normal.y := if distanceY1 < distanceY2 then -1.0 else 1.0;
    }

    contact.tangent.x := contact.normal.y;
    contact.tangent.y := -contact.normal.x;
    contact.depth := Max(0.0, distance);
  }

  /** circleInPlane */
  method CircleInPlane(circle: Circle2D, plane: Plane2D, contact: Contact2D)
    requires contact.Valid()
    modifies contact, contact.normal, contact.tangent
    ensures contact.Value() == CircleInPlaneContact(old(circle.Value()), old(plane.Value()))
  {
    ghost var c, l := circle.Value(), plane.Value();
    var distance := (circle.center.x * plane.normal.x) + (circle.center.y * plane.normal.y) + plane.offset;
    assert distance == SignedDistance(l, c.center);
    if distance < 0.0 {
      contact.normal.x := -plane.normal.x;
      contact.normal.y := -plane.normal.y;
      contact.depth := Max(0.0, circle.radius + distance);
      assert contact.normal.Value() == Neg(l.normal) && contact.depth == Max(0.0, c.radius + distance);
    } else {
      contact.normal.x := plane.normal.x;
      contact.normal.y := plane.normal.y;
      contact.depth := Max(0.0, circle.radius - distance);
      assert contact.normal.Value() == l.normal && contact.depth == Max(0.0, c.radius - distance);
    }

    contact.tangent.x := contact.normal.y;
    contact.tangent.y := -contact.normal.x;
    CircleInPlaneParts(c, l, distance, contact.normal.Value(), contact.depth);
  }

  /** The contact circleInPlane writes, from the distance it computes. */
  lemma CircleInPlaneParts(c: Disc, l: Line, distance: real, n: Point, d: real)
    requires distance == SignedDistance(l, c.center)
    requires n == (if distance < 0.0 then Neg(l.normal) else l.normal)
    requires d == (if distance < 0.0 then Max(0.0, c.radius + distance) else Max(0.0, c.radius - distance))
    ensures Along(n, d) == CircleInPlaneContact(c, l)
  {
  }

  /** circleInHalfspace */
  method CircleInHalfspace(circle: Circle2D, halfspace: Plane2D, contact: Contact2D)
    requires contact.Valid()
    requires circle.center != contact.normal && circle.center != contact.tangent
    requires halfspace.normal != contact.tangent
    modifies contact, contact.normal, contact.tangent
    ensures contact.Value() == CircleInHalfspaceContact(old(circle.Value()), old(halfspace.Value()))
  {
    contact.normal.x := halfspace.normal.x;
    contact.normal.y := halfspace.normal.y;
    contact.tangent.x := contact.normal.y;
    contact.tangent.y := -contact.normal.x;

    var distance := (circle.center.x * halfspace.normal.x) + (circle.center.y * halfspace.normal.y) + halfspace.offset;
    contact.depth := Max(0.0, circle.radius - distance);
  }

  /** circleInCircle; root is Math.sqrt of the squared distance between the
      centers. */
  method CircleInCircle(circle1: Circle2D, circle2: Circle2D, root: real, contact: Contact2D)
    requires contact.Valid()
    requires IsSqrt(root, LengthSquared(Sub(circle1.center.Value(), circle2.center.Value())))
    modifies contact, contact.normal, contact.tangent
    ensures contact.Value() == CircleInCircleContact(old(circle1.Value()), old(circle2.Value()), root)
  {
    ghost var c1, c2 := circle1.Value(), circle2.Value();
    ghost var w := Sub(c1.center, c2.center);
    var distanceX := circle1.center.x - circle2.center.x;
    var distanceY := circle1.center.y - circle2.center.y;
    assert Point(distanceX, distanceY) == w;
    contact.normal.x := distanceX;
    contact.normal.y := distanceY;
    assert contact.normal.Value() == w;
    contact.normal.Normalize(root);
    ghost var n := contact.normal.Value();
    assert n == Normalized(w, root);
    contact.tangent.x := contact.normal.y;
    contact.tangent.y := -contact.normal.x;

    var distance := Dot(contact.normal.Value(), Point(distanceX, distanceY));
    assert distance == Dot(n, Point(distanceX, distanceY));
    contact.depth := Max(0.0, (circle1.radius + circle2.radius) - distance);
    assert contact.Value() == Along(n, Max(0.0, (c1.radius + c2.radius) - Dot(n, w)));
  }

  /** circleInRectangle; root is Math.sqrt of the squared distance from the
      center to its nearest point of the rectangle. */
  method CircleInRectangle(circle: Circle2D, rectangle: Rectangle2D, root: real, contact: Contact2D)
    requires contact.Valid()
    requires IsSqrt(root, LengthSquared(Sub(circle.center.Value(),
      Closest.RectangleClosest(circle.center.Value(), rectangle.Value()))))
    modifies contact, contact.normal, contact.tangent
    ensures contact.Value() == CircleInRectangleContact(old(circle.Value()), old(rectangle.Value()), root)
  {
    var xTest := circle.center.x < rectangle.min.x || circle.center.x > rectangle.max.x;
    var yTest := circle.center.y < rectangle.min.y || circle.center.y > rectangle.max.y;
    if xTest && yTest {
      CornerContact(circle, rectangle, root, contact);
    } else {
      EdgeContact(circle, rectangle, root, contact);
    }
  }

  /** circleInRectangle for a center beyond a corner. */
  method CornerContact(circle: Circle2D, rectangle: Rectangle2D, root: real, contact: Contact2D)
    requires contact.Valid() && BeyondCorner(circle.center.Value(), rectangle.Value())
    requires IsSqrt(root, LengthSquared(Sub(circle.center.Value(),
      Closest.RectangleClosest(circle.center.Value(), rectangle.Value()))))
    modifies contact, contact.normal, contact.tangent
    ensures contact.Value() == CircleInRectangleContact(old(circle.Value()), old(rectangle.Value()), root)
  {
    ghost var c, b := circle.Value(), rectangle.Value();
    assert c.center.x == circle.center.x && c.center.y == circle.center.y && c.radius == circle.radius;
    assert b.min.x == rectangle.min.x && b.min.y == rectangle.min.y;
    assert b.max.x == rectangle.max.x && b.max.y == rectangle.max.y;
    var closestX := circle.center.x;
    var closestY := circle.center.y;
    if closestX < rectangle.min.x { closestX := rectangle.min.x; }
    if closestY < rectangle.min.y { closestY := rectangle.min.y; }
    if closestX > rectangle.max.x { closestX := rectangle.max.x; }
    if closestY > rectangle.max.y { closestY := rectangle.max.y; }
    ghost var w := Sub(c.center, Closest.RectangleClosest(c.center, b));
    assert Point(closestX, closestY) == Closest.RectangleClosest(c.center, b);

    var distanceX := circle.center.x - closestX;
    var distanceY := circle.center.y - closestY;
    assert Point(distanceX, distanceY) == w;
    contact.normal.x := distanceX;
    contact.normal.y := distanceY;
    assert contact.normal.Value() == w;
    contact.normal.Normalize(root);
    ghost var n := contact.normal.Value();
    assert n == Normalized(w, root);

    var distance := Dot(contact.normal.Value(), Point(distanceX, distanceY));
    contact.depth := Max(0.0, circle.radius - distance);
    contact.tangent.x := contact.normal.y;
    contact.tangent.y := -contact.normal.x;
    assert contact.Value() == Along(n, Max(0.0, c.radius - Dot(n, w)));
    CircleInRectangleCorner(c, b, root);
  }

  /** circleInRectangle for any other center. */
  method EdgeContact(circle: Circle2D, rectangle: Rectangle2D, root: real, contact: Contact2D)
    requires contact.Valid() && !BeyondCorner(circle.center.Value(), rectangle.Value())
    requires IsSqrt(root, LengthSquared(Sub(circle.center.Value(),
      Closest.RectangleClosest(circle.center.Value(), rectangle.Value()))))
    modifies contact, contact.normal, contact.tangent
    ensures contact.Value() == CircleInRectangleContact(old(circle.Value()), old(rectangle.Value()), root)
  {
    ghost var c, b := circle.Value(), rectangle.Value();
    var distanceX1 := (circle.center.x + circle.radius) - rectangle.min.x;
    var distanceY1 := (circle.center.y + circle.radius) - rectangle.min.y;
    var distanceX2 := rectangle.max.x - (circle.center.x - circle.radius);
    var distanceY2 := rectangle.max.y - (circle.center.y - circle.radius);
    WriteAxisContact(distanceX1, distanceX2, distanceY1, distanceY2, contact);
    CircleInRectangleEdge(c, b, root);
  }

  /** The contact circleInRectangle writes for a center beyond a corner. */
  lemma CircleInRectangleCorner(c: Disc, b: Box, root: real)
    requires IsSqrt(root, LengthSquared(Sub(c.center, Closest.RectangleClosest(c.center, b))))
    requires BeyondCorner(c.center, b)
    ensures var w := Sub(c.center, Closest.RectangleClosest(c.center, b));
      CircleInRectangleContact(c, b, root) == Along(Normalized(w, root), Max(0.0, c.radius - Dot(Normalized(w, root), w)))
  {
  }

  /** The contact circleInRectangle writes for any other center. */
  lemma CircleInRectangleEdge(c: Disc, b: Box, root: real)
    requires IsSqrt(root, LengthSquared(Sub(c.center, Closest.RectangleClosest(c.center, b))))
    requires !BeyondCorner(c.center, b)
    ensures var p, e := c.center, c.radius;
      CircleInRectangleContact(c, b, root) ==
        AxisContact((p.x + e) - b.min.x, b.max.x - (p.x - e), (p.y + e) - b.min.y, b.max.y - (p.y - e))
  {
  }

  /** rectangleInPlane */
  method RectangleInPlane(rectangle: Rectangle2D, plane: Plane2D, contact: Contact2D)
    requires contact.Valid()
    modifies contact, contact.normal, contact.tangent
    ensures contact.Value() == RectangleInPlaneContact(old(rectangle.Value()), old(plane.Value()))
  {
    ghost var b, l := rectangle.Value(), plane.Value();
    assert b.min.x == rectangle.min.x && b.min.y == rectangle.min.y;
    assert b.max.x == rectangle.max.x && b.max.y == rectangle.max.y;
    assert l.normal.x == plane.normal.x && l.normal.y == plane.normal.y && l.offset == plane.offset;
    RectangleMeasures(b, l);
    var rectangleExtentX := (rectangle.max.x - rectangle.min.x) * 0.5;
    var rectangleExtentY := (rectangle.max.y - rectangle.min.y) * 0.5;
    var rectangleCenterX := rectangle.min.x + rectangleExtentX;
    var rectangleCenterY := rectangle.min.y + rectangleExtentY;

    var projection := (rectangleExtentX * Abs(plane.normal.x)) + (rectangleExtentY * Abs(plane.normal.y));
    var distance := (rectangleCenterX * plane.normal.x) + (rectangleCenterY * plane.normal.y) + plane.offset;
    var absoluteDistance := Abs(distance);
    assert projection == ProjectedExtent(b, l.normal);
    assert distance == SignedDistance(l, Center(b));

    if distance < 0.0 {
      contact.normal.x := -plane.normal.x;
      contact.normal.y := -plane.normal.y;
      assert contact.normal.Value() == Neg(l.normal);
    } else {
      contact.normal.x := plane.normal.x;
      contact.normal.y := plane.normal.y;
      assert contact.normal.Value() == l.normal;
    }

    contact.tangent.x := contact.normal.y;
    contact.tangent.y := -contact.normal.x;
    contact.depth := Max(0.0, projection - absoluteDistance);
    RectangleInPlaneParts(b, l, contact.normal.Value(), contact.depth);
  }

  /** The contact rectangleInPlane writes, from the projection and distance
      it computes. */
  lemma RectangleInPlaneParts(b: Box, l: Line, n: Point, d: real)
    requires n == (if SignedDistance(l, Center(b)) < 0.0 then Neg(l.normal) else l.normal)
    requires d == Max(0.0, ProjectedExtent(b, l.normal) - Abs(SignedDistance(l, Center(b))))
    ensures Along(n, d) == RectangleInPlaneContact(b, l)
  {
  }

  /** The projection and the center's distance as the rectangle routines
      compute them from the corners' and the normal's components. */
  lemma {:induction false} RectangleMeasures(b: Box, l: Line)
    ensures var ex, ey := (b.max.x - b.min.x) * 0.5, (b.max.y - b.min.y) * 0.5;
      ex * Abs(l.normal.x) + ey * Abs(l.normal.y) == ProjectedExtent(b, l.normal) &&
      (b.min.x + ex) * l.normal.x + (b.min.y + ey) * l.normal.y + l.offset == SignedDistance(l, Center(b))
  {
    assert Extent(b) == Point((b.max.x - b.min.x) * 0.5, (b.max.y - b.min.y) * 0.5);
    assert Center(b) == Point(b.min.x + Extent(b).x, b.min.y + Extent(b).y);
  }

  /** rectangleInHalfspace */
  method RectangleInHalfspace(rectangle: Rectangle2D, halfspace: Plane2D, contact: Contact2D)
    requires contact.Valid()
    modifies contact, contact.normal, contact.tangent
    ensures contact.Value() == RectangleInHalfspaceContact(old(rectangle.Value()), old(halfspace.Value()))
  {
    ghost var b, l := rectangle.Value(), halfspace.Value();
    assert b.min.x == rectangle.min.x && b.min.y == rectangle.min.y;
    assert b.max.x == rectangle.max.x && b.max.y == rectangle.max.y;
    assert l.normal.x == halfspace.normal.x && l.normal.y == halfspace.normal.y && l.offset == halfspace.offset;
    RectangleMeasures(b, l);
    var rectangleExtentX := (rectangle.max.x - rectangle.min.x) * 0.5;
    var rectangleExtentY := (rectangle.max.y - rectangle.min.y) * 0.5;
    var rectangleCenterX := rectangle.min.x + rectangleExtentX;
    var rectangleCenterY := rectangle.min.y + rectangleExtentY;

    var projection := (rectangleExtentX * Abs(halfspace.normal.x)) + (rectangleExtentY * Abs(halfspace.normal.y));
    var distance := (rectangleCenterX * halfspace.normal.x) + (rectangleCenterY * halfspace.normal.y) + halfspace.offset;
    assert projection == ProjectedExtent(b, l.normal);
    assert distance == SignedDistance(l, Center(b));

    contact.normal.x := halfspace.normal.x;
    contact.normal.y := halfspace.normal.y;
    contact.tangent.x := contact.normal.y;
    contact.tangent.y := -contact.normal.x;
    contact.depth := Max(0.0, projection - distance);
  }

  /** rectangleInRectangle */
  method RectangleInRectangle(rectangle1: Rectangle2D, rectangle2: Rectangle2D, contact: Contact2D)
    requires contact.Valid()
    modifies contact, contact.normal, contact.tangent
    ensures contact.Value() == RectangleInRectangleContact(old(rectangle1.Value()), old(rectangle2.Value()))
  {
    var distanceX1 := rectangle1.max.x - rectangle2.min.x;
    var distanceY1 := rectangle1.max.y - rectangle2.min.y;
    var distanceX2 := rectangle2.max.x - rectangle1.min.x;
    var distanceY2 := rectangle2.max.y - rectangle1.min.y;
    WriteAxisContact(distanceX1, distanceX2, distanceY1, distanceY2, contact);
  }
}
