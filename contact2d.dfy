/** Contact2D: the result of a collision — a normal, a tangent and a
    penetration depth. The contact owns its two vectors. */
module Contacts {
  import opened Vectors

  /** The value held by a Contact2D. */
  datatype Manifold = Manifold(normal: Point, tangent: Point, depth: real)

  /** The tangent every Collide2D routine derives from a normal: the normal
      turned a quarter turn clockwise, (normal.y, -normal.x). */
  function TangentOf(n: Point): Point
  {
    Point(n.y, -n.x)
  }

  /** The tangent is perpendicular to the normal and as long as it. */
  lemma TangentPerpendicular(n: Point)
    ensures Dot(TangentOf(n), n) == 0.0 && LengthSquared(TangentOf(n)) == LengthSquared(n)
  {
    assert -n.x * -n.x == n.x * n.x;
  }

  /** What every contact a Collide2D routine produces satisfies: the tangent
      follows the normal and the depth is never negative. */
  predicate Consistent(m: Manifold)
  {
    m.tangent == TangentOf(m.normal) && m.depth >= 0.0
  }

  /** The contact after flip(): both vectors reversed, the depth kept. */
  function Flipped(m: Manifold): (f: Manifold)
    ensures f.normal == Neg(m.normal) && f.tangent == Neg(m.tangent) && f.depth == m.depth
    ensures Consistent(m) ==> Consistent(f)
  {
    Manifold(Neg(m.normal), Neg(m.tangent), m.depth)
  }

  /** Flipping twice restores the contact. */
  lemma FlipTwice(m: Manifold)
    ensures Flipped(Flipped(m)) == m
  {
  }

  class Contact2D {
    const normal: Vector2D
    const tangent: Vector2D
    var depth: real

    function Value(): Manifold
      reads this, normal, tangent
    {
      Manifold(normal.Value(), tangent.Value(), depth)
    }

    /** The two vectors are distinct objects, as every constructor makes them. */
    predicate Valid()
      reads this
    {
      normal != tangent
    }

    /** Contact2D(): all zero. */
    constructor Zero()
      ensures Value() == Manifold(Origin, Origin, 0.0)
      ensures Valid() && fresh(normal) && fresh(tangent)
    {
      normal := new Vector2D(0.0, 0.0);
      tangent := new Vector2D(0.0, 0.0);
      depth := 0.0;
    }

    /** Contact2D(Contact2D): a copy that owns new vectors. */
    constructor Copy(contact: Contact2D)
      ensures Value() == contact.Value()
      ensures Valid() && fresh(normal) && fresh(tangent)
    {
      normal := new Vector2D(contact.normal.x, contact.normal.y);
      tangent := new Vector2D(contact.tangent.x, contact.tangent.y);
      depth := contact.depth;
    }

    /** Contact2D(Vector2D, Vector2D, float): copies the vectors' components. */
    constructor FromVectors(normal: Vector2D, tangent: Vector2D, depth: real)
      ensures Value() == Manifold(normal.Value(), tangent.Value(), depth)
      ensures Valid() && fresh(this.normal) && fresh(this.tangent)
    {
      this.normal := new Vector2D(normal.x, normal.y);
      this.tangent := new Vector2D(tangent.x, tangent.y);
      this.depth := depth;
    }

    /** Contact2D(float, float, float, float, float) */
    constructor (normalX: real, normalY: real, tangentX: real, tangentY: real, depth: real)
      ensures Value() == Manifold(Point(normalX, normalY), Point(tangentX, tangentY), depth)
      ensures Valid() && fresh(normal) && fresh(tangent)
    {
      normal := new Vector2D(normalX, normalY);
      tangent := new Vector2D(tangentX, tangentY);
      this.depth := depth;
    }

    /** flip(): reverses the contact's direction. */
    method Flip()
      requires Valid()
      modifies normal, tangent
      ensures Value() == Flipped(old(Value()))
    {
      ghost var m := Value();
      normal.x := -normal.x;
      normal.y := -normal.y;
      tangent.x := -tangent.x;
      tangent.y := -tangent.y;
      assert normal.Value() == Neg(m.normal) && tangent.Value() == Neg(m.tangent);
    }
  }
}
