/** Circle2D: a center vector, which the circle owns, and a radius. */
module Circles {
  import opened Vectors

  /** The value held by a Circle2D. */
  datatype Disc = Disc(center: Point, radius: real)

  /** p lies in the closed disc (compared on squared lengths, as every
      routine of the package does). */
  predicate InDisc(p: Point, d: Disc)
  {
    DistanceSquared(p, d.center) <= d.radius * d.radius
  }

  class Circle2D {
    const center: Vector2D
    var radius: real

    function Value(): Disc
      reads this, center
    {
      Disc(center.Value(), radius)
    }

    /** Circle2D(): center (0, 0), radius 0. */
    constructor Zero()
      ensures Value() == Disc(Origin, 0.0) && fresh(center)
    {
      center := new Vector2D(0.0, 0.0);
      radius := 0.0;
    }

    /** Circle2D(Circle2D): a copy that owns a new center vector. */
    constructor Copy(circle: Circle2D)
      ensures Value() == circle.Value() && fresh(center)
    {
      center := new Vector2D(circle.center.x, circle.center.y);
      radius := circle.radius;
    }

    /** Circle2D(Vector2D, float): copies the center's components, never aliases it. */
    constructor FromCenter(center: Vector2D, radius: real)
      ensures Value() == Disc(center.Value(), radius) && fresh(this.center)
    {
      this.center := new Vector2D(center.x, center.y);
      this.radius := radius;
    }

    /** Circle2D(float, float, float) */
    constructor (centerX: real, centerY: real, radius: real)
      ensures Value() == Disc(Point(centerX, centerY), radius) && fresh(center)
    {
      center := new Vector2D(centerX, centerY);
      this.radius := radius;
    }
  }
}
