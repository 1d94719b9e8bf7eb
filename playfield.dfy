/** PlayField: the Breakout play area. Each logic frame it moves the paddle
    to the cursor, moves the ball, and while the ball is alive bounces it off
    the walls, the blocks and the paddle, publishing an event for each
    bounce, break and fall. */
module PlayFields {
  import opened Scalars
  import opened Vectors
  import opened Circles
  import opened Rectangles
  import opened Contacts
  import opened Paddles
  import Closest
  import Intersections
  import Collisions

  /** A Ball's fields: the circle it occupies, its unit direction of travel
      and its speed in distance per millisecond. */
  datatype Ball = Ball(isAlive: bool, circle: Disc, direction: Point, defaultDirection: Point,
                       speedDefault: real, speed: real)

  /** A Block's fields that the game logic uses. */
  datatype Block = Block(circle: Disc, alive: bool)

  /** The events of the game; a broken block is named by its index in the
      play field's list. */
  datatype Event =
    | ScreenSizeChanged(width: int, height: int)
    | CursorMoved(position: Point)
    | CursorReleased(position: Point)
    | GetReady
    | Go
    | BallBrokeBlock(block: nat, collisionPoint: Point, collisionNormal: Point, collisionReflect: Point)
    | BallBouncedPaddle(collisionPoint: Point, collisionNormal: Point, collisionReflect: Point)
    | BallBouncedWall
    | BallFellOut

  /** Everything a PlayField changes: the ball, the paddle, the blocks, the
      cursor, and the events it has published so far. */
  datatype Field = Field(ball: Ball, paddle: Paddle, blocks: seq<Block>, cursor: Point,
                         cursorDown: bool, events: seq<Event>)

  /** The signs of two vectors' components agree. */
  predicate SameSigns(u: Point, p: Point)
  {
    (u.x > 0.0 <==> p.x > 0.0) && (u.x < 0.0 <==> p.x < 0.0) &&
    (u.y > 0.0 <==> p.y > 0.0) && (u.y < 0.0 <==> p.y < 0.0)
  }

  /** What the model assumes of Vectors.normalize, given as the function
      `unit`: a non-zero vector keeps the sign of each component. */
  ghost predicate KeepsSigns(unit: Point -> Point)
  {
    forall p: Point :: p != Origin ==> SameSigns(unit(p), p)
  }

  /** What the model assumes of Math.sqrt, given as the function `sqrt`. */
  ghost predicate IsRoot(sqrt: real -> real)
  {
    forall x: real :: x >= 0.0 ==> IsSqrt(sqrt(x), x)
  }

  /** The radii the game sets up: a ball of positive radius and blocks of
      non-negative radius, so a ball and a block never have radii summing to
      zero. */
  predicate Sized(f: Field)
  {
    f.ball.circle.radius > 0.0 &&
    forall j :: 0 <= j < |f.blocks| ==> f.blocks[j].circle.radius >= 0.0
  }

  /** v mirrored in the line whose normal is n: v - 2 (n . v) n. */
  function Mirrored(v: Point, n: Point): Point
  {
    var dot := Dot(n, v) * 2.0;
    Point(v.x - n.x * dot, v.y - n.y * dot)
  }

  /** Vectors.reflect: the mirrored direction, then normalized. */
  function Reflect(unit: Point -> Point, v: Point, n: Point): Point
  {
    unit(Mirrored(v, n))
  }

  /** About a unit normal, mirroring reverses the component along the
      normal, keeps the length, and undoes itself. */
  lemma {:induction false} MirrorReflects(v: Point, n: Point)
    requires LengthSquared(n) == 1.0
    ensures Dot(Mirrored(v, n), n) == -Dot(v, n)
    ensures LengthSquared(Mirrored(v, n)) == LengthSquared(v)
    ensures Mirrored(Mirrored(v, n), n) == v
  {
    var k, m := Dot(n, v), Mirrored(v, n);
    MirrorAlong(v.x, v.y, n.x, n.y, k);
    assert m == Point(v.x - n.x * (k * 2.0), v.y - n.y * (k * 2.0));
    assert Dot(n, m) == -k;
    assert Mirrored(m, n) == Point(m.x - n.x * (-k * 2.0), m.y - n.y * (-k * 2.0));
  }

  /** The arithmetic of one mirroring, with k the component along the unit
      normal (nx, ny). */
  lemma MirrorAlong(vx: real, vy: real, nx: real, ny: real, k: real)
    requires nx * nx + ny * ny == 1.0 && k == nx * vx + ny * vy
    ensures var mx, my := vx - nx * (k * 2.0), vy - ny * (k * 2.0);
      mx * nx + my * ny == -k && nx * mx + ny * my == -k &&
      mx * mx + my * my == vx * vx + vy * vy
  {
    var mx, my := vx - nx * (k * 2.0), vy - ny * (k * 2.0);
    assert mx * nx + my * ny == k - 2.0 * k * (nx * nx + ny * ny);
    assert mx * mx + my * my == vx * vx + vy * vy - 4.0 * k * (nx * vx + ny * vy) + 4.0 * k * k * (nx * nx + ny * ny);
  }

  // movePaddle

  /** Where movePaddle puts the paddle's center for a cursor at c, a paddle
      radius r and a screen width w: pushed right when it would stick out on
      the left, pushed left when it would stick out on the right. */
  function PaddleX(c: real, r: real, w: real): (x: real)
    ensures 2.0 * r <= w ==> r <= x <= w - r
    ensures 0.0 <= c - r && c + r <= w ==> x == c
    ensures 2.0 * r <= w ==> x == Max(r, Min(c, w - r))
  {
    if c - r < 0.0 && c + r > w then w - c
    else if c - r < 0.0 then r
    else if c + r > w then w - r
    else c
  }

  /** movePaddle: with playPerfectly the cursor first jumps to the ball;
      then the paddle's center.x follows the cursor, kept on screen. */
  function MovedPaddle(f: Field, width: int, playPerfectly: bool): (g: Field)
    ensures g.ball == f.ball && g.blocks == f.blocks && g.events == f.events
    ensures g.paddle == f.paddle.(center := f.paddle.center.(x := PaddleX(g.cursor.x, f.paddle.radius, width as real)))
  {
    var cursor := if playPerfectly then f.cursor.(x := f.ball.circle.center.x) else f.cursor;
    var x := PaddleX(cursor.x, f.paddle.radius, width as real);
    f.(cursor := cursor, paddle := f.paddle.(center := f.paddle.center.(x := x)))
  }

  // moveBall

  /** moveBall on the ball: a live ball travels deltaMs * speed along its
      direction, and dies, with its speed reset, once its top edge is at or
      below the bottom of the screen. */
  function MovedBall(b: Ball, deltaMs: real, height: int): (r: Ball)
    ensures !b.isAlive ==> r == b
    ensures b.isAlive ==> r.circle == Disc(PointAt(b.circle.center, b.direction, deltaMs * b.speed), b.circle.radius)
    ensures b.isAlive ==> (r.isAlive <==> r.circle.center.y - r.circle.radius < height as real)
    ensures r.speed == (if b.isAlive && !r.isAlive then b.speedDefault else b.speed)
    ensures r.direction == b.direction && r.defaultDirection == b.defaultDirection && r.speedDefault == b.speedDefault
  {
    if !b.isAlive then b
    else
      var speed := deltaMs * b.speed;
      var center := Point(b.circle.center.x + speed * b.direction.x, b.circle.center.y + speed * b.direction.y);
      assert center == PointAt(b.circle.center, b.direction, speed) by {
        assert speed * b.direction.x == b.direction.x * speed && speed * b.direction.y == b.direction.y * speed;
      }
      var moved := b.(circle := b.circle.(center := center));
      if center.y - b.circle.radius >= height as real then moved.(isAlive := false, speed := b.speedDefault)
      else moved
  }

  /** The ball was alive and fell out of the screen in this move. */
  predicate FellOut(b: Ball, deltaMs: real, height: int)
  {
    b.isAlive && !MovedBall(b, deltaMs, height).isAlive
  }

  /** moveBall on the play field: the ball moves and BallFellOut is
      published, once, exactly when a live ball falls out; nothing else
      changes. */
  function MoveBallStep(f: Field, deltaMs: real, height: int): (g: Field)
    ensures g.paddle == f.paddle && g.blocks == f.blocks && g.cursor == f.cursor && g.cursorDown == f.cursorDown
    ensures g.ball == MovedBall(f.ball, deltaMs, height)
    ensures g.ball.circle.radius == f.ball.circle.radius
    ensures |f.events| <= |g.events| <= |f.events| + 1 && g.events[..|f.events|] == f.events
    ensures |g.events| == |f.events| + 1 <==> f.ball.isAlive && !g.ball.isAlive
    ensures |g.events| == |f.events| + 1 ==> g.events[|f.events|] == BallFellOut
  {
    f.(ball := MovedBall(f.ball, deltaMs, height),
       events := f.events + if FellOut(f.ball, deltaMs, height) then [BallFellOut] else [])
  }

  // collideBallWithWalls

  predicate TouchesRight(b: Ball, width: int) { b.circle.center.x + b.circle.radius >= width as real }
  predicate TouchesLeft(b: Ball) { b.circle.center.x - b.circle.radius <= 0.0 }
  predicate TouchesTop(b: Ball) { b.circle.center.y - b.circle.radius <= 0.0 }

  predicate TouchesWall(b: Ball, width: int)
  {
    TouchesRight(b, width) || TouchesLeft(b) || TouchesTop(b)
  }

  /** The ball's direction after the wall tests and before it is normalized:
      each touched wall turns the matching component away from it, and the
      left wall is tested after the right one. */
  function WallTurned(b: Ball, width: int): (d: Point)
    ensures TouchesLeft(b) ==> d.x >= 0.0
    ensures TouchesRight(b, width) && !TouchesLeft(b) ==> d.x <= 0.0
    ensures TouchesTop(b) ==> d.y >= 0.0
    ensures Abs(d.x) == Abs(b.direction.x) && Abs(d.y) == Abs(b.direction.y)
    ensures !TouchesWall(b, width) ==> d == b.direction
  {
    var x := if TouchesRight(b, width) then -Abs(b.direction.x) else b.direction.x;
    var x' := if TouchesLeft(b) then Abs(x) else x;
    var y := if TouchesTop(b) then Abs(b.direction.y) else b.direction.y;
    Point(x', y)
  }

  /** collideBallWithWalls on the play field: the turned direction is
      normalized whether or not a wall was touched, and BallBouncedWall is
      published when one was. */
  function WallStep(f: Field, width: int, unit: Point -> Point): (g: Field)
    ensures g.paddle == f.paddle && g.blocks == f.blocks && g.cursor == f.cursor
    ensures g.ball == f.ball.(direction := unit(WallTurned(f.ball, width)))
  {
    f.(ball := f.ball.(direction := unit(WallTurned(f.ball, width))),
       events := f.events + if TouchesWall(f.ball, width) then [BallBouncedWall] else [])
  }

  /** After the wall step a ball touching the left wall heads right (or
      straight up or down), one touching the top heads down, and one touching
      only the right wall heads left; a moving ball keeps moving. */
  lemma {:induction false} WallsTurnBallAway(b: Ball, width: int, unit: Point -> Point)
    requires KeepsSigns(unit) && b.direction != Origin
    ensures var d := unit(WallTurned(b, width));
      (TouchesLeft(b) ==> d.x >= 0.0) &&
      (TouchesTop(b) ==> d.y >= 0.0) &&
      (TouchesRight(b, width) && !TouchesLeft(b) ==> d.x <= 0.0)
  {
    var t := WallTurned(b, width);
    assert t != Origin;
    assert SameSigns(unit(t), t);
  }

  /** The wall step publishes exactly one BallBouncedWall when a wall is
      touched and nothing otherwise. */
  lemma {:induction false} WallEventIffTouched(f: Field, width: int, unit: Point -> Point)
    ensures var g := WallStep(f, width, unit);
      (TouchesWall(f.ball, width) <==> g.events == f.events + [BallBouncedWall]) &&
      (!TouchesWall(f.ball, width) <==> g.events == f.events)
  {
    var g := WallStep(f, width, unit);
    if TouchesWall(f.ball, width) {
      assert |g.events| == |f.events| + 1;
    } else {
      assert g.events == f.events + [];
      assert g.events != f.events + [BallBouncedWall] by {
        assert |g.events| != |f.events + [BallBouncedWall]|;
      }
    }
  }

  // collideBallWithBlocks

  /** The ball reaches the block: their centers are no further apart than
      the sum of the radii. The source compares sqrt(dx^2 + dy^2) with that
      sum, which for reals is this test on squares. */
  predicate Touches(ball: Disc, block: Disc)
  {
    var reach := block.radius + ball.radius;
    reach >= 0.0 && DistanceSquared(ball.center, block.center) <= reach * reach
  }

  /** With radii that are not negative, reaching the block is the circle
      overlap test of Intersect2D. */
  lemma {:induction false} TouchesIsCircleOverlap(ball: Disc, block: Disc)
    requires ball.radius >= 0.0 && block.radius >= 0.0
    ensures Touches(ball, block) <==> Intersections.CircleInCircle(ball, block)
  {
    Intersections.DistanceSymmetric(ball.center, block.center);
    assert block.radius + ball.radius == ball.radius + block.radius;
  }

  /** collisionPoint: the average of the two centers weighted by the other
      circle's radius, which is the point a fraction r0 / (r0 + r1) of the
      way from the first center to the second. */
  function CollisionPoint(c0: Disc, c1: Disc): (p: Point)
    requires c0.radius + c1.radius != 0.0
    ensures p == PointAt(c0.center, Sub(c1.center, c0.center), c0.radius / (c0.radius + c1.radius))
  {
    var s := c0.radius + c1.radius;
    WeightedMean(c0.center.x, c1.center.x, c0.radius, c1.radius);
    WeightedMean(c0.center.y, c1.center.y, c0.radius, c1.radius);
    Point((c0.center.x * c1.radius + c1.center.x * c0.radius) / s,
          (c0.center.y * c1.radius + c1.center.y * c0.radius) / s)
  }

  lemma WeightedMean(a: real, b: real, r0: real, r1: real)
    requires r0 + r1 != 0.0
    ensures (a * r1 + b * r0) / (r0 + r1) == a + (b - a) * (r0 / (r0 + r1))
  {
    var s := r0 + r1;
    var t := r0 / s;
    assert t * s == r0;
    assert (a + (b - a) * t) * s == a * s + (b - a) * (t * s);
    assert a * s + (b - a) * r0 == a * r1 + b * r0;
  }

  /** When a ball reaches a block, the collision point lies in both of them. */
  lemma {:induction false} CollisionPointInBoth(ball: Disc, block: Disc)
    requires ball.radius > 0.0 && block.radius >= 0.0 && Touches(ball, block)
    ensures InDisc(CollisionPoint(ball, block), ball) && InDisc(CollisionPoint(ball, block), block)
  {
    TouchesIsCircleOverlap(ball, block);
    assert CollisionPoint(ball, block) == Intersections.TouchPoint(ball, block);
    Intersections.TouchPointInFirst(ball, block);
    Intersections.TouchPointInSecond(ball, block);
  }

  /** The ball reaches live block i. */
  predicate Hit(f: Field, i: nat)
    requires i < |f.blocks|
  {
    f.blocks[i].alive && Touches(f.ball.circle, f.blocks[i].circle)
  }

  /** The event published when block i breaks: the collision point, the
      normal from it towards the block's center (CircleF.directionTo), and
      the ball's direction reflected about that normal. */
  function BreakEvent(f: Field, i: nat, unit: Point -> Point): (e: Event)
    requires i < |f.blocks| && Sized(f)
    ensures e.BallBrokeBlock? && e.block == i
  {
    var block := f.blocks[i];
    var collision := CollisionPoint(f.ball.circle, block.circle);
    var normal := unit(Sub(block.circle.center, collision));
    BallBrokeBlock(i, collision, normal, Reflect(unit, f.ball.direction, normal))
  }

  /** One turn of the loop over the blocks: a live block the ball reaches is
      broken, the ball takes the reflected direction, and its speed rises by
      2.5% up to 5. */
  function BreakBlock(f: Field, i: nat, unit: Point -> Point): (g: Field)
    requires i < |f.blocks| && Sized(f)
    ensures |g.blocks| == |f.blocks| && g.ball.circle == f.ball.circle && Sized(g)
    ensures g.paddle == f.paddle && g.cursor == f.cursor && g.cursorDown == f.cursorDown
    ensures !Hit(f, i) ==> g == f
    ensures Hit(f, i) ==>
      g.blocks == f.blocks[i := f.blocks[i].(alive := false)] &&
      g.events == f.events + [BreakEvent(f, i, unit)] && g.ball.speed == Min(f.ball.speed * 1.025, 5.0)
  {
    if Hit(f, i) then
      var e := BreakEvent(f, i, unit);
      f.(ball := f.ball.(direction := e.collisionReflect, speed := Min(f.ball.speed * 1.025, 5.0)),
         blocks := f.blocks[i := f.blocks[i].(alive := false)],
         events := f.events + [e])
    else
      f
  }

  /** The play field after the loop has visited the first n blocks. */
  function Swept(f: Field, n: nat, unit: Point -> Point): (g: Field)
    requires n <= |f.blocks| && Sized(f)
    ensures |g.blocks| == |f.blocks| && g.ball.circle == f.ball.circle
    ensures Sized(g) && g.paddle == f.paddle && g.cursor == f.cursor && g.cursorDown == f.cursorDown
    decreases n
  {
    if n == 0 then f else BreakBlock(Swept(f, n - 1, unit), n - 1, unit)
  }

  /** The blocks, among the first n, that the loop breaks: the live ones the
      ball reaches, in list order. */
  function Broken(f: Field, n: nat): (s: seq<nat>)
    requires n <= |f.blocks|
    ensures forall k :: 0 <= k < |s| ==> s[k] < n
    decreases n
  {
    if n == 0 then []
    else if Hit(f, n - 1) then Broken(f, n - 1) + [n - 1]
    else Broken(f, n - 1)
  }

  /** After the loop over the first n blocks, a block among them is dead
      when the ball reached it alive and is otherwise as it was: every live
      block hit is broken, a dead block stays dead, and the blocks not yet
      visited are untouched. */
  lemma {:induction false} SweptBreaks(f: Field, n: nat, unit: Point -> Point, j: nat)
    requires n <= |f.blocks| && Sized(f) && j < |f.blocks|
    ensures Swept(f, n, unit).blocks[j] ==
      if j < n && Hit(f, j) then f.blocks[j].(alive := false) else f.blocks[j]
    decreases n
  {
    if n > 0 {
      SweptBreaks(f, n - 1, unit, j);
      var h := Swept(f, n - 1, unit);
      if j == n - 1 {
        assert h.blocks[j] == f.blocks[j] && h.ball.circle == f.ball.circle;
        assert Hit(h, j) == Hit(f, j);
      }
    }
  }

  /** The loop's step at block n - 1 decides on the block as the play field
      had it at the start: the earlier steps leave it alone. */
  lemma {:induction false} SweptStep(f: Field, n: nat, unit: Point -> Point)
    requires 0 < n <= |f.blocks| && Sized(f)
    ensures var h := Swept(f, n - 1, unit);
      Swept(f, n, unit) == BreakBlock(h, n - 1, unit) && (Hit(h, n - 1) <==> Hit(f, n - 1)) &&
      Broken(f, n) == Broken(f, n - 1) + (if Hit(f, n - 1) then [n - 1] else [])
  {
    var h := Swept(f, n - 1, unit);
    SweptBreaks(f, n - 1, unit, n - 1);
    assert h.blocks[n - 1] == f.blocks[n - 1] && h.ball.circle == f.ball.circle;
  }

  /** The loop publishes one BallBrokeBlock per broken block, in list order,
      and nothing else. */
  lemma {:induction false} SweptEvents(f: Field, n: nat, unit: Point -> Point)
    requires n <= |f.blocks| && Sized(f)
    ensures var g := Swept(f, n, unit);
      |f.events| <= |g.events| && g.events[..|f.events|] == f.events &&
      var added := g.events[|f.events|..];
      |added| == |Broken(f, n)| &&
      forall k :: 0 <= k < |added| ==> added[k].BallBrokeBlock? && added[k].block == Broken(f, n)[k]
    decreases n
  {
    if n > 0 {
      SweptEvents(f, n - 1, unit);
      SweptStep(f, n, unit);
      var h := Swept(f, n - 1, unit);
      var g := Swept(f, n, unit);
      if Hit(f, n - 1) {
        var e := BreakEvent(h, n - 1, unit);
        assert g.events == h.events + [e];
        AppendSlices(g.events, h.events, e, |f.events|);
      } else {
        assert g == h && Broken(f, n) == Broken(f, n - 1);
      }
    }
  }

  lemma AppendSlices(a: seq<Event>, b: seq<Event>, e: Event, m: nat)
    requires m <= |b| && a == b + [e]
    ensures a[m..] == b[m..] + [e] && a[..m] == b[..m]
  {
  }

  /** After the loop breaks any block the ball's speed is at most 5; a speed
      between 0 and 5 never falls; when nothing breaks the ball is as it
      was. */
  lemma {:induction false} SweptSpeed(f: Field, n: nat, unit: Point -> Point)
    requires n <= |f.blocks| && Sized(f)
    ensures var g := Swept(f, n, unit);
      (|Broken(f, n)| > 0 ==> g.ball.speed <= 5.0) &&
      (0.0 <= f.ball.speed <= 5.0 ==> f.ball.speed <= g.ball.speed <= 5.0) &&
      (|Broken(f, n)| == 0 ==> g.ball == f.ball)
    decreases n
  {
    if n > 0 {
      SweptSpeed(f, n - 1, unit);
      SweptStep(f, n, unit);
      var h := Swept(f, n - 1, unit);
      var g := Swept(f, n, unit);
      if Hit(f, n - 1) {
        assert |Broken(f, n)| > 0;
        assert g.ball.speed == Min(h.ball.speed * 1.025, 5.0);
        RaisedSpeed(h.ball.speed);
      } else {
        assert g == h;
      }
    }
  }

  /** A speed s in [0, 5] is at most min(s * 1.025, 5). */
  lemma RaisedSpeed(s: real)
    ensures Min(s * 1.025, 5.0) <= 5.0
    ensures 0.0 <= s <= 5.0 ==> s <= Min(s * 1.025, 5.0)
  {
  }

  // collideBallWithPaddle

  /** The contact Collide2D.circleInRectangle computes between the ball and
      the paddle's rectangle. */
  function PaddleContact(f: Field, sqrt: real -> real): (m: Manifold)
    requires IsRoot(sqrt)
    ensures Consistent(m)
  {
    var c := f.ball.circle.center;
    var w := Sub(c, Closest.RectangleClosest(c, Rectangle(f.paddle)));
    Closest.LengthSquaredNonNegative(w);
    Collisions.CircleInRectangleContact(f.ball.circle, Rectangle(f.paddle), sqrt(LengthSquared(w)))
  }

  /** collideBallWithPaddle: on a positive depth the ball is reflected about
      the contact normal and BallBouncedPaddle is published; otherwise
      nothing changes. */
  function PaddleStep(f: Field, unit: Point -> Point, sqrt: real -> real): (g: Field)
    requires IsRoot(sqrt)
    ensures g.paddle == f.paddle && g.blocks == f.blocks && g.cursor == f.cursor
    ensures g.ball.circle == f.ball.circle
    ensures PaddleContact(f, sqrt).depth <= 0.0 <==> g == f
  {
    var contact := PaddleContact(f, sqrt);
    if contact.depth > 0.0 then
      var reflect := Reflect(unit, f.ball.direction, contact.normal);
      var g := f.(ball := f.ball.(direction := reflect),
                  events := f.events + [BallBouncedPaddle(f.ball.circle.center, contact.normal, reflect)]);
      assert |g.events| != |f.events|;
      g
    else
      f
  }

  /** A ball that does not overlap the paddle is not bounced by it. */
  lemma {:induction false} PaddleBouncesOnlyOnOverlap(f: Field, unit: Point -> Point, sqrt: real -> real)
    requires IsRoot(sqrt)
    requires f.paddle.radius >= 0.0 && f.paddle.height >= 0.0 && f.ball.circle.radius >= 0.0
    requires !Intersections.CircleInRectangle(f.ball.circle, Rectangle(f.paddle))
    ensures PaddleStep(f, unit, sqrt) == f
  {
    var c := f.ball.circle.center;
    var w := Sub(c, Closest.RectangleClosest(c, Rectangle(f.paddle)));
    Closest.LengthSquaredNonNegative(w);
    Collisions.CircleInRectangleDepth(f.ball.circle, Rectangle(f.paddle), sqrt(LengthSquared(w)));
  }

  // onLogic

  /** onLogic: the paddle follows the cursor, the ball moves, and only if it
      is still alive is it bounced off the walls, then the blocks, then the
      paddle. */
  function LogicStep(f: Field, deltaMs: real, width: int, height: int, playPerfectly: bool,
                     unit: Point -> Point, sqrt: real -> real): (g: Field)
    requires Sized(f) && IsRoot(sqrt)
    ensures Sized(g)
  {
    var moved := MoveBallStep(MovedPaddle(f, width, playPerfectly), deltaMs, height);
    if moved.ball.isAlive then
      var walled := WallStep(moved, width, unit);
      PaddleStep(Swept(walled, |walled.blocks|, unit), unit, sqrt)
    else
      moved
  }

  /** A ball that is dead after moving breaks no block and is not bounced:
      the frame only moves the paddle (and publishes BallFellOut when the
      ball has just fallen out). */
  lemma {:induction false} NoCollisionsWhileDead(f: Field, deltaMs: real, width: int, height: int,
                                                  playPerfectly: bool, unit: Point -> Point, sqrt: real -> real)
    requires Sized(f) && IsRoot(sqrt)
    requires !MovedBall(f.ball, deltaMs, height).isAlive
    ensures var g := LogicStep(f, deltaMs, width, height, playPerfectly, unit, sqrt);
      g.blocks == f.blocks && g.ball == MovedBall(f.ball, deltaMs, height) &&
      g.events == f.events + (if f.ball.isAlive then [BallFellOut] else [])
  {
  }

  // onEvent

  /** onEvent: GetReady puts the paddle in the middle of the screen and a
      live ball two radii above it heading in its default direction; the
      cursor events track the cursor; the other events change nothing the
      logic reads. */
  function EventStep(f: Field, e: Event, width: int): (g: Field)
    ensures g.blocks == f.blocks && g.events == f.events
    ensures !e.GetReady? ==> g.ball == f.ball && g.paddle == f.paddle
    ensures e.GetReady? ==> g.ball.isAlive && g.ball.direction == f.ball.defaultDirection
    ensures g.ball.circle.radius == f.ball.circle.radius
    ensures Sized(f) ==> Sized(g)
  {
    match e
    case GetReady =>
      var paddle := f.paddle.(center := f.paddle.center.(x := width as real / 2.0));
      var center := Point(width as real / 2.0, Rectangle(paddle).min.y - f.ball.circle.radius * 2.0);
      f.(paddle := paddle,
         ball := f.ball.(direction := f.ball.defaultDirection, circle := f.ball.circle.(center := center), isAlive := true))
    case CursorMoved(position) => f.(cursorDown := true, cursor := position)
    case CursorReleased(_) => f.(cursorDown := false)
    case _ => f
  }

  /** After GetReady the ball is centred over the paddle and clear of it, a
      radius above its top edge. */
  lemma {:induction false} ServeClearOfPaddle(f: Field, width: int)
    requires f.ball.circle.radius > 0.0 && f.paddle.radius >= 0.0 && f.paddle.height >= 0.0
    ensures var g := EventStep(f, GetReady, width);
      g.ball.circle.center.x == g.paddle.center.x &&
      g.ball.circle.center.y + g.ball.circle.radius < Rectangle(g.paddle).min.y &&
      !Intersections.CircleInRectangle(g.ball.circle, Rectangle(g.paddle))
  {
    var g := EventStep(f, GetReady, width);
    var b := Rectangle(g.paddle);
    var c := g.ball.circle.center;
    var r := g.ball.circle.radius;
    RectangleCorners(g.paddle, b);
    var q := Closest.RectangleClosest(c, b);
    assert q == Point(c.x, b.min.y);
    assert Sub(q, c) == Point(0.0, 2.0 * r);
    TwoRadiiApart(q, c, r);
  }

  /** Points two radii apart are more than a radius apart. */
  lemma TwoRadiiApart(q: Point, c: Point, r: real)
    requires r > 0.0 && Sub(q, c) == Point(0.0, 2.0 * r)
    ensures DistanceSquared(q, c) > r * r
  {
    assert DistanceSquared(q, c) == 4.0 * (r * r);
    Collisions.SquareSign(r);
    assert Collisions.Positive(r * r);
  }

  /** The play field. The ball, the paddle and the blocks are the records it
      updates in place; publishing an event appends it to `events`. */
  class PlayField {
    const width: int
    const height: int
    /** Vectors.normalize. */
    const unit: Point -> Point
    /** Math.sqrt, as Collide2D uses it. */
    const sqrt: real -> real
    var playPerfectly: bool
    var ball: Ball
    var paddle: Paddle
    var blocks: seq<Block>
    var cursor: Point
    var cursorDown: bool
    var events: seq<Event>

    function State(): Field
      reads this
    {
      Field(ball, paddle, blocks, cursor, cursorDown, events)
    }

    ghost predicate Valid()
      reads this
    {
      KeepsSigns(unit) && IsRoot(sqrt) && Sized(State())
    }

    constructor (width: int, height: int, blocks: seq<Block>, ball: Ball, paddle: Paddle,
                 unit: Point -> Point, sqrt: real -> real)
      ensures this.width == width && this.height == height && this.unit == unit && this.sqrt == sqrt
      ensures !playPerfectly
      ensures State() == Field(ball, paddle, blocks, Origin, false, [])
    {
      this.width := width;
      this.height := height;
      this.unit := unit;
      this.sqrt := sqrt;
      this.blocks := blocks;
      this.ball := ball;
      this.paddle := paddle;
      playPerfectly := false;
      cursor := Origin;
      cursorDown := false;
      events := [];
    }

    method MovePaddle()
      modifies this
      ensures State() == MovedPaddle(old(State()), width, playPerfectly)
      ensures playPerfectly == old(playPerfectly)
    {
      if playPerfectly {
        cursor := cursor.(x := ball.circle.center.x);
      }
      var newPaddleX := cursor.x;
      var paddleLeftX := newPaddleX - paddle.radius;
      var paddleRightX := newPaddleX + paddle.radius;
      if paddleLeftX < 0.0 {
        newPaddleX := newPaddleX + Abs(paddleLeftX);
      }
      if paddleRightX > width as real {
        newPaddleX := newPaddleX - Abs(paddleRightX - width as real);
      }
      paddle := paddle.(center := paddle.center.(x := newPaddleX));
    }

    method MoveBall(deltaMs: real)
      modifies this
      ensures State() == MoveBallStep(old(State()), deltaMs, height)
      ensures playPerfectly == old(playPerfectly)
    {
      ghost var moved := MovedBall(ball, deltaMs, height);
      var speed := deltaMs * ball.speed;
      if ball.isAlive {
        var center := ball.circle.center;
        center := center.(x := center.x + speed * ball.direction.x);
        center := center.(y := center.y + speed * ball.direction.y);
        assert center == moved.circle.center;
        ball := ball.(circle := ball.circle.(center := center));
        var ballTop := ball.circle.center.y - ball.circle.radius;
        if ballTop >= height as real {
          ball := ball.(isAlive := false);
          ball := ball.(speed := ball.speedDefault);
          assert ball == moved;
          events := events + [BallFellOut];
        } else {
          assert ball == moved;
        }
      }
    }

    method CollideBallWithWalls()
      modifies this
      ensures State() == WallStep(old(State()), width, unit)
      ensures playPerfectly == old(playPerfectly)
    {
      var collided := false;
      if ball.circle.center.x + ball.circle.radius >= width as real {
        ball := ball.(direction := ball.direction.(x := -Abs(ball.direction.x)));
        collided := true;
      }
      if ball.circle.center.x - ball.circle.radius <= 0.0 {
        ball := ball.(direction := ball.direction.(x := Abs(ball.direction.x)));
        collided := true;
      }
      if ball.circle.center.y - ball.circle.radius <= 0.0 {
        ball := ball.(direction := ball.direction.(y := Abs(ball.direction.y)));
        collided := true;
      }
      ball := ball.(direction := unit(ball.direction));
      if collided {
        events := events + [BallBouncedWall];
      }
    }

    method CollideBallWithBlocks()
      requires Sized(State())
      modifies this
      ensures State() == Swept(old(State()), |old(blocks)|, unit)
      ensures playPerfectly == old(playPerfectly)
    {
      ghost var f0 := State();
      var i := 0;
      while i < |blocks|
        invariant 0 <= i <= |blocks| == |f0.blocks|
        invariant State() == Swept(f0, i, unit)
        invariant playPerfectly == old(playPerfectly)
      {
        BreakIfHit(i);
        i := i + 1;
      }
    }

    /** The body of the loop over the blocks, for block i. */
    method BreakIfHit(i: nat)
      requires i < |blocks| && Sized(State())
      modifies this
      ensures State() == BreakBlock(old(State()), i, unit)
      ensures playPerfectly == old(playPerfectly)
    {
      ghost var before := State();
      var block := blocks[i];
      if block.alive {
        var radius := block.circle.radius + ball.circle.radius;
        if radius >= 0.0 && DistanceSquared(ball.circle.center, block.circle.center) <= radius * radius {
          assert Hit(before, i);
          var collision := CollisionPoint(ball.circle, block.circle);
          var normal := unit(Sub(block.circle.center, collision));
          var reflect := Reflect(unit, ball.direction, normal);
          assert BreakEvent(before, i, unit) == BallBrokeBlock(i, collision, normal, reflect);
          ball := ball.(direction := reflect);
          ball := ball.(speed := Min(ball.speed * 1.025, 5.0));
          blocks := blocks[i := block.(alive := false)];
          events := events + [BallBrokeBlock(i, collision, normal, reflect)];
        }
      }
    }

    method CollideBallWithPaddle()
      requires IsRoot(sqrt)
      modifies this
      ensures State() == PaddleStep(old(State()), unit, sqrt)
      ensures playPerfectly == old(playPerfectly)
    {
      var contact := PaddleContact(State(), sqrt);
      if contact.depth > 0.0 {
        var reflect := Reflect(unit, ball.direction, contact.normal);
        ball := ball.(direction := reflect);
        events := events + [BallBouncedPaddle(ball.circle.center, contact.normal, reflect)];
      }
    }

    method OnLogic(deltaMs: real)
      requires Valid()
      modifies this
      ensures State() == LogicStep(old(State()), deltaMs, width, height, playPerfectly, unit, sqrt)
      ensures Valid() && playPerfectly == old(playPerfectly)
    {
      MovePaddle();
      MoveBall(deltaMs);
      if ball.isAlive {
        CollideBallWithWalls();
        CollideBallWithBlocks();
        CollideBallWithPaddle();
      }
    }

    method OnEvent(e: Event)
      modifies this
      ensures State() == EventStep(old(State()), e, width)
      ensures playPerfectly == old(playPerfectly)
      ensures old(Valid()) ==> Valid()
    {
      match e {
        case GetReady =>
          paddle := paddle.(center := paddle.center.(x := width as real / 2.0));
          ball := ball.(direction := ball.defaultDirection);
          ball := ball.(circle := ball.circle.(center := Point(width as real / 2.0, Rectangle(paddle).min.y - ball.circle.radius * 2.0)));
          ball := ball.(isAlive := true);
        case CursorMoved(position) =>
          cursorDown := true;
          cursor := position;
        case CursorReleased(_) =>
          cursorDown := false;
        case _ =>
      }
    }
  }
}
