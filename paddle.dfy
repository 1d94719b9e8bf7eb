/** Paddle: the player's bat, a rectangle centred on a point, `radius` wide
    on each side of the center and `height` tall. */
module Paddles {
  import opened Vectors
  import opened Rectangles

  /** The paddle's fields; the play field moves it by replacing center.x. */
  datatype Paddle = Paddle(center: Point, height: real, radius: real)

  /** rectangle(): the box from (center.x - radius, center.y - height/2) to
      (center.x + radius, center.y + height/2); screen y grows downwards, so
      min.y is the paddle's top edge. */
  function Rectangle(p: Paddle): (b: Box)
    ensures Center(b) == p.center
    ensures Extent(b) == Point(p.radius, p.height / 2.0)
    ensures p.radius >= 0.0 && p.height >= 0.0 ==> WellFormed(b)
  {
    var left := p.center.x - p.radius;
    var top := p.center.y - p.height / 2.0;
    var right := p.center.x + p.radius;
    var bottom := p.center.y + p.height / 2.0;
    Box(Point(left, top), Point(right, bottom))
  }

  /** The rectangle is fixed by its center and extent: the corners sit
      radius to either side of the center and height/2 above and below it,
      whatever the paddle's measures. */
  lemma {:induction false} RectangleCorners(p: Paddle, b: Box)
    requires Center(b) == p.center && Extent(b) == Point(p.radius, p.height / 2.0)
    ensures b == Rectangle(p)
    ensures b.min.x == p.center.x - p.radius && b.max.x == p.center.x + p.radius
    ensures b.min.y == p.center.y - p.height / 2.0 && b.max.y == p.center.y + p.height / 2.0
  {
    assert Add(Center(b), Extent(b)) == b.max && Sub(Center(b), Extent(b)) == b.min;
  }

  /** Moving the paddle sideways moves its rectangle with it and keeps its
      top and bottom edges. */
  lemma {:induction false} RectangleFollowsCenter(p: Paddle, x: real)
    ensures var b := Rectangle(p.(center := p.center.(x := x)));
      b.min.y == Rectangle(p).min.y && b.max.y == Rectangle(p).max.y &&
      b.min.x == x - p.radius && b.max.x == x + p.radius
  {
    var q := p.(center := p.center.(x := x));
    RectangleCorners(q, Rectangle(q));
    RectangleCorners(p, Rectangle(p));
  }

  /** rectangle() as the Kotlin method: a fresh Rectangle2D holding the box;
      the paddle is a value and is left as it was. */
  method NewRectangle(p: Paddle) returns (r: Rectangle2D)
    ensures fresh(r) && fresh(r.min) && fresh(r.max)
    ensures r.Value() == Rectangle(p)
  {
    var left := p.center.x - p.radius;
    var top := p.center.y - p.height / 2.0;
    var right := p.center.x + p.radius;
    var bottom := p.center.y + p.height / 2.0;
    r := new Rectangle2D(left, top, right, bottom);
  }
}
