/** Plane2D: a line normal.x * X + normal.y * Y + offset = 0, used both as a
    two-sided plane and as the halfspace of points with a non-positive
    signed distance. */
module Planes {
  import opened Scalars
  import opened Vectors

  /** The value held by a Plane2D. */
  datatype Line = Line(normal: Point, offset: real)

  /** Signed distance of p from the line (exact distance when the normal is a unit vector). */
  function SignedDistance(l: Line, p: Point): real
  {
    p.x * l.normal.x + p.y * l.normal.y + l.offset
  }

  /** The normal calculatePlaneLeft starts from, before normalizing. */
  function LeftNormal(p1: Point, p2: Point): Point
  {
    Point(p1.y - p2.y, p2.x - p1.x)
  }

  /** The normal calculatePlaneRight starts from, before normalizing. */
  function RightNormal(p1: Point, p2: Point): Point
  {
    Point(p2.y - p1.y, p1.x - p2.x)
  }

  /** The line through p1 whose normal is the normalized n. */
  function LineThrough(p1: Point, n: Point, root: real): (l: Line)
    requires IsSqrt(root, LengthSquared(n))
    ensures SignedDistance(l, p1) == 0.0
    ensures LengthSquared(l.normal) == 1.0
  {
    var u := Normalized(n, root);
    Line(u, 0.0 - (u.x * p1.x + u.y * p1.y))
  }

  /** A normal that, scaled by a positive factor, gives a vector
      perpendicular to d, is itself perpendicular to d. */
  lemma PerpendicularAfterScaling(u: Point, k: real, d: Point)
    requires k > 0.0 && Dot(Scale(u, k), d) == 0.0
    ensures Dot(u, d) == 0.0
  {
    assert Dot(Scale(u, k), d) == k * Dot(u, d);
    assert Dot(u, d) > 0.0 ==> k * Dot(u, d) > 0.0;
    assert Dot(u, d) < 0.0 ==> k * Dot(u, d) < 0.0;
  }

  /** Normalizing a normal n perpendicular to d, as long as d as long as n,
      keeps it perpendicular to d. */
  lemma NormalizedPerpendicular(n: Point, d: Point, root: real)
    requires IsSqrt(root, LengthSquared(n))
    requires LengthSquared(n) == LengthSquared(d) && Dot(n, d) == 0.0
    ensures LengthSquared(d) != 0.0 ==> Dot(Normalized(n, root), d) == 0.0
  {
    if LengthSquared(d) != 0.0 {
      PerpendicularAfterScaling(Normalized(n, root), root, d);
    }
  }

  /** calculatePlaneLeft(point1, point2), on values. */
  function PlaneLeft(p1: Point, p2: Point, root: real): (l: Line)
    requires IsSqrt(root, LengthSquared(LeftNormal(p1, p2)))
    ensures SignedDistance(l, p1) == 0.0
    ensures LengthSquared(l.normal) == 1.0
    ensures LengthSquared(Sub(p2, p1)) != 0.0 ==> Dot(l.normal, Sub(p2, p1)) == 0.0
    ensures LengthSquared(Sub(p2, p1)) == 0.0 ==> l == Line(Point(1.0, 0.0), -p1.x)
  {
    assert LengthSquared(LeftNormal(p1, p2)) == LengthSquared(Sub(p2, p1));
    NormalizedPerpendicular(LeftNormal(p1, p2), Sub(p2, p1), root);
    LineThrough(p1, LeftNormal(p1, p2), root)
  }

  /** calculatePlaneRight(point1, point2), on values. */
  function PlaneRight(p1: Point, p2: Point, root: real): (l: Line)
    requires IsSqrt(root, LengthSquared(RightNormal(p1, p2)))
    ensures SignedDistance(l, p1) == 0.0
    ensures LengthSquared(l.normal) == 1.0
    ensures LengthSquared(Sub(p2, p1)) != 0.0 ==> Dot(l.normal, Sub(p2, p1)) == 0.0
    ensures LengthSquared(Sub(p2, p1)) == 0.0 ==> l == Line(Point(1.0, 0.0), -p1.x)
  {
    assert LengthSquared(RightNormal(p1, p2)) == LengthSquared(Sub(p2, p1));
    NormalizedPerpendicular(RightNormal(p1, p2), Sub(p2, p1), root);
    LineThrough(p1, RightNormal(p1, p2), root)
  }

  /** For two distinct points the right-hand plane is the left-hand plane
      with its normal and offset negated: the same line, facing the other way. */
  lemma {:induction false} RightIsFlippedLeft(p1: Point, p2: Point, root: real)
    requires IsSqrt(root, LengthSquared(LeftNormal(p1, p2)))
    requires LengthSquared(Sub(p2, p1)) != 0.0
    ensures IsSqrt(root, LengthSquared(RightNormal(p1, p2)))
    ensures PlaneRight(p1, p2, root).normal == Neg(PlaneLeft(p1, p2, root).normal)
    ensures PlaneRight(p1, p2, root).offset == -PlaneLeft(p1, p2, root).offset
  {
    var n := LeftNormal(p1, p2);
    assert RightNormal(p1, p2) == Neg(n);
    assert LengthSquared(n) == LengthSquared(Sub(p2, p1));
    DivideByLength(n, root);
    DivideByLength(Neg(n), root);
    assert LengthSquared(Neg(n)) == LengthSquared(n);
  }

  /** The normal calculatePlaneLeft builds when its own normal object may
      also be point1 (a1) or point2 (a2): the write to normal.x is then
      what the next line reads as that point's x. */
  function AliasedLeftNormal(p1: Point, p2: Point, a1: bool, a2: bool): (n: Point)
    ensures !a1 && !a2 ==> n == LeftNormal(p1, p2)
  {
    var nx := p1.y - p2.y;
    var x1 := if a1 then nx else p1.x;
    var x2 := if a2 then nx else p2.x;
    Point(nx, x2 - x1)
  }

  /** The normal calculatePlaneRight builds, with the same aliasing. */
  function AliasedRightNormal(p1: Point, p2: Point, a1: bool, a2: bool): (n: Point)
    ensures !a1 && !a2 ==> n == RightNormal(p1, p2)
  {
    var nx := p2.y - p1.y;
    var x1 := if a1 then nx else p1.x;
    var x2 := if a2 then nx else p2.x;
    Point(nx, x1 - x2)
  }

  /** The plane both routines store from the normal n they built: n
      normalized, and the offset read from point1 after the normalization,
      which is the normalized normal itself when point1 is the normal object
      (a1). Either way the line passes through point1 as the call leaves it. */
  function StoredLine(n: Point, p1: Point, a1: bool, root: real): (l: Line)
    requires IsSqrt(root, LengthSquared(n))
    ensures LengthSquared(l.normal) == 1.0
    ensures !a1 ==> l == LineThrough(p1, n, root)
    ensures SignedDistance(l, if a1 then l.normal else p1) == 0.0
    ensures a1 ==> l.offset == -1.0
  {
    var u := Normalized(n, root);
    Line(u, 0.0 - Dot(u, if a1 then u else p1))
  }

  lemma StoredLineFrom(n: Point, p1: Point, a1: bool, root: real, u: Point, q: Point, offset: real)
    requires IsSqrt(root, LengthSquared(n))
    requires u == Normalized(n, root) && q == (if a1 then u else p1)
    requires offset == 0.0 - Dot(u, q)
    ensures StoredLine(n, p1, a1, root) == Line(u, offset)
  {
  }

  class Plane2D {
    const normal: Vector2D
    var offset: real

    function Value(): Line
      reads this, normal
    {
      Line(normal.Value(), offset)
    }

    /** Plane2D(): normal (0, 0), offset 0. */
    constructor Zero()
      ensures Value() == Line(Origin, 0.0) && fresh(normal)
    {
      normal := new Vector2D(0.0, 0.0);
      offset := 0.0;
    }

    /** Plane2D(Plane2D): a copy that owns a new normal vector. */
    constructor Copy(plane: Plane2D)
      ensures Value() == plane.Value() && fresh(normal)
    {
      normal := new Vector2D(plane.normal.x, plane.normal.y);
      offset := plane.offset;
    }

    /** Plane2D(Vector2D, float): copies the normal's components, never aliases it. */
    constructor FromNormal(normal: Vector2D, offset: real)
      ensures Value() == Line(normal.Value(), offset) && fresh(this.normal)
    {
      this.normal := new Vector2D(normal.x, normal.y);
      this.offset := offset;
    }

    /** Plane2D(float, float, float) */
    constructor (normalX: real, normalY: real, offset: real)
      ensures Value() == Line(Point(normalX, normalY), offset) && fresh(normal)
    {
      normal := new Vector2D(normalX, normalY);
      this.offset := offset;
    }

    /** calculatePlaneLeft: the plane through point1 whose normal is the
        left-hand perpendicular of point2 - point1; root is Math.sqrt of the
        squared length of the normal the routine builds. Either point may
        be this plane's own normal object, as the routine does not forbid
        it; the plane is then built from the values it reads after its own
        writes. */
    method CalculatePlaneLeft(point1: Vector2D, point2: Vector2D, root: real)
      requires IsSqrt(root, LengthSquared(AliasedLeftNormal(point1.Value(), point2.Value(),
                                                            normal == point1, normal == point2)))
      modifies this, normal
      ensures Value() == StoredLine(AliasedLeftNormal(old(point1.Value()), old(point2.Value()),
                                                      normal == point1, normal == point2),
                                    old(point1.Value()), normal == point1, root)
      ensures normal != point1 && normal != point2 ==>
        Value() == PlaneLeft(old(point1.Value()), old(point2.Value()), root)
    {
      ghost var p1, p2 := point1.Value(), point2.Value();
      ghost var a1, a2 := normal == point1, normal == point2;
      normal.x := point1.y - point2.y;
      assert point1.x == if a1 then normal.x else p1.x;
      assert point2.x == if a2 then normal.x else p2.x;
      normal.y := point2.x - point1.x;
      ghost var n := normal.Value();
      assert n == AliasedLeftNormal(p1, p2, a1, a2);
      normal.Normalize(root);
      ghost var u := normal.Value();
      ghost var q := if a1 then u else p1;
      assert u == Normalized(n, root) && point1.Value() == q;
      offset := 0.0 - Dot(normal.Value(), point1.Value());
      StoredLineFrom(n, p1, a1, root, u, q, offset);
    }

    /** calculatePlaneRight: as CalculatePlaneLeft with the right-hand perpendicular. */
    method CalculatePlaneRight(point1: Vector2D, point2: Vector2D, root: real)
      requires IsSqrt(root, LengthSquared(AliasedRightNormal(point1.Value(), point2.Value(),
                                                             normal == point1, normal == point2)))
      modifies this, normal
      ensures Value() == StoredLine(AliasedRightNormal(old(point1.Value()), old(point2.Value()),
                                                       normal == point1, normal == point2),
                                    old(point1.Value()), normal == point1, root)
      ensures normal != point1 && normal != point2 ==>
        Value() == PlaneRight(old(point1.Value()), old(point2.Value()), root)
    {
      ghost var p1, p2 := point1.Value(), point2.Value();
      ghost var a1, a2 := normal == point1, normal == point2;
      normal.x := point2.y - point1.y;
      assert point1.x == if a1 then normal.x else p1.x;
      assert point2.x == if a2 then normal.x else p2.x;
      normal.y := point1.x - point2.x;
      ghost var n := normal.Value();
      assert n == AliasedRightNormal(p1, p2, a1, a2);
      normal.Normalize(root);
      ghost var u := normal.Value();
      ghost var q := if a1 then u else p1;
      assert u == Normalized(n, root) && point1.Value() == q;
      offset := 0.0 - Dot(normal.Value(), point1.Value());
      StoredLineFrom(n, p1, a1, root, u, q, offset);
    }
  }
}
