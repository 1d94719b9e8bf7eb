/** Rectangle2D: an axis-aligned rectangle given by its min and max corners,
    two vectors the rectangle owns. */
module Rectangles {
  import opened Scalars
  import opened Vectors

  /** The value held by a Rectangle2D. */
  datatype Box = Box(min: Point, max: Point)

  /** The corners are ordered; the routines of the package assume it. */
  predicate WellFormed(b: Box)
  {
    b.min.x <= b.max.x && b.min.y <= b.max.y
  }

  /** p lies in the closed rectangle. */
  predicate InBox(p: Point, b: Box)
  {
    b.min.x <= p.x <= b.max.x && b.min.y <= p.y <= b.max.y
  }

  /** Half the rectangle's size on each axis, as (max - min) * 0.5. */
  function Extent(b: Box): (e: Point)
    ensures WellFormed(b) ==> e.x >= 0.0 && e.y >= 0.0
  {
    Point((b.max.x - b.min.x) * 0.5, (b.max.y - b.min.y) * 0.5)
  }

  /** The rectangle's center, as min + extent. */
  function Center(b: Box): (c: Point)
    ensures Add(c, Extent(b)) == b.max && Sub(c, Extent(b)) == b.min
    ensures WellFormed(b) ==> InBox(c, b)
  {
    Add(b.min, Extent(b))
  }

  /** Half the length of the rectangle's shadow on the direction n:
      extent.x * |n.x| + extent.y * |n.y|. */
  function ProjectedExtent(b: Box, n: Point): (r: real)
    ensures WellFormed(b) ==> r >= 0.0
  {
    ProductNonNegative(Extent(b).x, Abs(n.x));
    ProductNonNegative(Extent(b).y, Abs(n.y));
    Extent(b).x * Abs(n.x) + Extent(b).y * Abs(n.y)
  }

  lemma ProductNonNegative(a: real, b: real)
    ensures a >= 0.0 && b >= 0.0 ==> a * b >= 0.0
  {
  }

  /** The rectangle's corner farthest along n; its signed offset from the
      center along n is the projected extent. */
  function FarCorner(b: Box, n: Point): Point
  {
    Point(if n.x >= 0.0 then b.max.x else b.min.x, if n.y >= 0.0 then b.max.y else b.min.y)
  }

  /** The corner opposite to FarCorner. */
  function NearCorner(b: Box, n: Point): Point
  {
    Point(if n.x >= 0.0 then b.min.x else b.max.x, if n.y >= 0.0 then b.min.y else b.max.y)
  }

  /** For a well-formed rectangle, the center's projection plus (minus) the
      projected extent is the largest (smallest) projection of any point of
      the rectangle, reached at the far (near) corner. */
  lemma {:induction false} ProjectedExtentBounds(b: Box, n: Point, p: Point)
    requires WellFormed(b) && InBox(p, b)
    ensures Dot(FarCorner(b, n), n) == Dot(Center(b), n) + ProjectedExtent(b, n)
    ensures Dot(NearCorner(b, n), n) == Dot(Center(b), n) - ProjectedExtent(b, n)
    ensures Dot(NearCorner(b, n), n) <= Dot(p, n) <= Dot(FarCorner(b, n), n)
    ensures InBox(FarCorner(b, n), b) && InBox(NearCorner(b, n), b)
  {
    CornerProjections(b, n);
    CornersBound(b, n, p);
  }

  lemma {:induction false} CornerProjections(b: Box, n: Point)
    ensures Dot(FarCorner(b, n), n) == Dot(Center(b), n) + ProjectedExtent(b, n)
    ensures Dot(NearCorner(b, n), n) == Dot(Center(b), n) - ProjectedExtent(b, n)
  {
    var c, e := Center(b), Extent(b);
    var f, m := FarCorner(b, n), NearCorner(b, n);
    AxisProjections(b.min.x, b.max.x, n.x, m.x, f.x, c.x, e.x);
    AxisProjections(b.min.y, b.max.y, n.y, m.y, f.y, c.y, e.y);
    CombineAxes(f.x * n.x, c.x * n.x, e.x * Abs(n.x), m.x * n.x,
                f.y * n.y, c.y * n.y, e.y * Abs(n.y), m.y * n.y);
  }

  lemma {:induction false} CornersBound(b: Box, n: Point, p: Point)
    requires WellFormed(b) && InBox(p, b)
    ensures Dot(NearCorner(b, n), n) <= Dot(p, n) <= Dot(FarCorner(b, n), n)
  {
    var f, m := FarCorner(b, n), NearCorner(b, n);
    AxisOrdered(b.min.x, b.max.x, p.x, n.x, m.x, f.x);
    AxisOrdered(b.min.y, b.max.y, p.y, n.y, m.y, f.y);
    SumsOrdered(m.x * n.x, p.x * n.x, f.x * n.x, m.y * n.y, p.y * n.y, f.y * n.y);
  }

  /** One axis of CornerProjections: the product by k at the end of
      [lo, hi] chosen by the sign of k is half the width times |k| away from
      the midpoint's product. */
  lemma AxisProjections(lo: real, hi: real, k: real, near: real, far: real, mid: real, half: real)
    requires near == (if k >= 0.0 then lo else hi) && far == (if k >= 0.0 then hi else lo)
    requires mid == lo + (hi - lo) * 0.5 && half == (hi - lo) * 0.5
    ensures far * k == mid * k + half * Abs(k)
    ensures near * k == mid * k - half * Abs(k)
  {
  }

  /** One axis of CornersBound: on [lo, hi] the product by k is extremal at
      the ends. */
  lemma AxisOrdered(lo: real, hi: real, v: real, k: real, near: real, far: real)
    requires lo <= v <= hi
    requires near == (if k >= 0.0 then lo else hi) && far == (if k >= 0.0 then hi else lo)
    ensures near * k <= v * k <= far * k
  {
    if k >= 0.0 {
      assert (v - lo) * k >= 0.0 && (hi - v) * k >= 0.0;
    } else {
      assert (v - lo) * k <= 0.0 && (hi - v) * k <= 0.0;
    }
  }

  /** The linear step of CornerProjections: the two axes' terms add up. */
  lemma CombineAxes(fx: real, cx: real, ex: real, mx: real,
                    fy: real, cy: real, ey: real, my: real)
    requires fx == cx + ex && mx == cx - ex
    requires fy == cy + ey && my == cy - ey
    ensures fx + fy == (cx + cy) + (ex + ey)
    ensures mx + my == (cx + cy) - (ex + ey)
  {
  }

  lemma SumsOrdered(a1: real, b1: real, c1: real, a2: real, b2: real, c2: real)
    requires a1 <= b1 <= c1 && a2 <= b2 <= c2
    ensures a1 + a2 <= b1 + b2 <= c1 + c2
  {
  }

  class Rectangle2D {
    const min: Vector2D
    const max: Vector2D

    function Value(): Box
      reads this, min, max
    {
      Box(min.Value(), max.Value())
    }

    /** Rectangle2D(): both corners (0, 0). */
    constructor Zero()
      ensures Value() == Box(Origin, Origin)
      ensures fresh(min) && fresh(max) && min != max
    {
      min := new Vector2D(0.0, 0.0);
      max := new Vector2D(0.0, 0.0);
    }

    /** Rectangle2D(Rectangle2D): a copy that owns new corner vectors. */
    constructor Copy(rectangle: Rectangle2D)
      ensures Value() == rectangle.Value()
      ensures fresh(min) && fresh(max) && min != max
    {
      min := new Vector2D(rectangle.min.x, rectangle.min.y);
      max := new Vector2D(rectangle.max.x, rectangle.max.y);
    }

    /** Rectangle2D(Vector2D, Vector2D): copies the corners' components. */
    constructor FromCorners(min: Vector2D, max: Vector2D)
      ensures Value() == Box(min.Value(), max.Value())
      ensures fresh(this.min) && fresh(this.max) && this.min != this.max
    {
      this.min := new Vector2D(min.x, min.y);
      this.max := new Vector2D(max.x, max.y);
    }

    /** Rectangle2D(float, float, float, float) */
    constructor (minX: real, minY: real, maxX: real, maxY: real)
      ensures Value() == Box(Point(minX, minY), Point(maxX, maxY))
      ensures fresh(min) && fresh(max) && min != max
    {
      min := new Vector2D(minX, minY);
      max := new Vector2D(maxX, maxY);
    }
  }
}
