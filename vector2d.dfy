/** Vector2D: a mutable two-component vector or point. */
module Vectors {
  import opened Scalars

  /** The value held by a Vector2D. */
  datatype Point = Point(x: real, y: real)

  const Origin := Point(0.0, 0.0)

  function Add(p: Point, q: Point): Point { Point(p.x + q.x, p.y + q.y) }

  function Sub(p: Point, q: Point): Point { Point(p.x - q.x, p.y - q.y) }

  function Scale(p: Point, s: real): Point { Point(p.x * s, p.y * s) }

  function Neg(p: Point): Point { Point(-p.x, -p.y) }

  function Dot(p: Point, q: Point): real { p.x * q.x + p.y * q.y }

  function LengthSquared(p: Point): real { p.x * p.x + p.y * p.y }

  function DistanceSquared(p: Point, q: Point): real { LengthSquared(Sub(p, q)) }

  /** The point at parameter t of the line that starts at a with direction d. */
  function PointAt(a: Point, d: Point, t: real): Point { Add(a, Scale(d, t)) }

  lemma ScaledLengthSquared(a: real, b: real, k: real)
    ensures (a * k) * (a * k) + (b * k) * (b * k) == (a * a + b * b) * (k * k)
  {
  }

  lemma SquareOfProduct(r: real, k: real)
    ensures (r * r) * (k * k) == (r * k) * (r * k)
  {
  }

  lemma {:induction false} DivideByLength(p: Point, root: real)
    requires IsSqrt(root, LengthSquared(p)) && LengthSquared(p) != 0.0
    ensures root > 0.0
    ensures LengthSquared(Point(p.x * (1.0 / root), p.y * (1.0 / root))) == 1.0
    ensures Scale(Point(p.x * (1.0 / root), p.y * (1.0 / root)), root) == p
  {
    SqrtPositive(root, LengthSquared(p));
    var k := 1.0 / root;
    assert root * k == 1.0;
    ScaledLengthSquared(p.x, p.y, k);
    SquareOfProduct(root, k);
    assert (p.x * k) * root == p.x;
    assert (p.y * k) * root == p.y;
  }

  /** What normalize() leaves in a vector whose value was p, given the square
      root of its squared length: a vector of squared length exactly zero
      becomes (1, 0), any other is divided by its length. Either way the
      result is a unit vector. */
  function Normalized(p: Point, root: real): (r: Point)
    requires IsSqrt(root, LengthSquared(p))
    ensures LengthSquared(r) == 1.0
    ensures LengthSquared(p) == 0.0 ==> r == Point(1.0, 0.0)
    ensures LengthSquared(p) != 0.0 ==> root > 0.0 && Scale(r, root) == p
  {
    if LengthSquared(p) != 0.0 then
      DivideByLength(p, root);
      var inv := 1.0 / root;
      Point(p.x * inv, p.y * inv)
    else
      Point(1.0, 0.0)
  }

  /** Normalizing a vector of non-zero length keeps the sign of each component. */
  lemma NormalizedKeepsSigns(p: Point, root: real)
    requires IsSqrt(root, LengthSquared(p)) && LengthSquared(p) != 0.0
    ensures var r := Normalized(p, root);
      (r.x > 0.0 <==> p.x > 0.0) && (r.x < 0.0 <==> p.x < 0.0) &&
      (r.y > 0.0 <==> p.y > 0.0) && (r.y < 0.0 <==> p.y < 0.0)
  {
    var r := Normalized(p, root);
    SameSign(r.x, root, p.x);
    SameSign(r.y, root, p.y);
  }

  lemma SameSign(a: real, k: real, b: real)
    requires k > 0.0 && a * k == b
    ensures (a > 0.0 <==> b > 0.0) && (a < 0.0 <==> b < 0.0)
  {
    if a > 0.0 { assert a * k > 0.0; }
    else if a < 0.0 { assert a * k < 0.0; }
    else { assert a * k == 0.0; }
  }

  class Vector2D {
    var x: real
    var y: real

    function Value(): Point
      reads this
    {
      Point(x, y)
    }

    /** Vector2D(): the origin. */
    constructor Zero()
      ensures Value() == Origin
    {
      x, y := 0.0, 0.0;
    }

    /** Vector2D(Vector2D): a copy of the other vector's components. */
    constructor Copy(vector: Vector2D)
      ensures Value() == vector.Value()
    {
      x, y := vector.x, vector.y;
    }

    /** Vector2D(float, float) */
    constructor (x: real, y: real)
      ensures this.x == x && this.y == y
    {
      this.x, this.y := x, y;
    }

    /** normalize(): in place; root is Math.sqrt of the squared length. */
    method Normalize(root: real)
      requires IsSqrt(root, LengthSquared(Value()))
      modifies this
      ensures Value() == Normalized(old(Value()), root)
    {
      var temp := x * x + y * y;
      if temp != 0.0 {
        SqrtPositive(root, temp);
        var inv := 1.0 / root;
        x := x * inv;
        y := y * inv;
      } else {
        x := 1.0;
        y := 0.0;
      }
    }

    /** magnitude(): the Euclidean length; root is Math.sqrt of x*x + y*y. */
    function Magnitude(root: real): (m: real)
      reads this
      requires IsSqrt(root, x * x + y * y)
      ensures m >= 0.0 && m * m == LengthSquared(Value())
    {
      root
    }
  }
}
