# TerseWorks 2D math and the Breakout play field, in Dafny

This project models the core of an Android Breakout game and the small 2D
geometry package it is built on.

The geometry package (`com.terseworks.math`) has five mutable value classes:
- `Vector2D`, a point or direction;
- `Plane2D`, a line `normal . p + offset = 0`, which is also read as the
  halfspace where that expression is negative or zero;
- `Circle2D`;
- `Rectangle2D`, an axis-aligned box given by its `min` and `max` corners;
- `Contact2D`, a collision result: a normal, a tangent and a penetration depth.

It also has four static toolboxes:
- `Closest2D`, the closest point of a shape to a point;
- `Intersect2D`, boolean overlap tests;
- `Collide2D`, contacts between shapes;
- `RayCast2D`, the first point of a segment inside a shape.

Each Java class is a Dafny `class` with the same fields. Each of its methods
mutates exactly what the Java method mutates, and its postcondition ties the
new value to a pure function on datatype values (`Point`, `Line`, `Disc`,
`Box`, `Manifold`). The lemmas about those functions state what the routine
promises:
- the closest point is nearest;
- the overlap test holds exactly when the shapes share a point;
- pushing by the depth along the normal separates the shapes;
- the ray cast returns the first point of the segment in the shape.

The Breakout part models three things:
- the paddle's collision rectangle (`Paddle.rectangle`);
- `PlayField`, which moves the ball and the paddle, bounces the ball off walls
  and the paddle, and breaks blocks;
- `GamePlayingState`, the status machine that counts down before each ball,
  counts lives, and decides when the game is won or lost.

`PlayField` and `GamePlaying` are classes whose methods update their fields.
Each method is proved to produce the new state that a step function
(`MoveBallStep`, `WallStep`, `Swept`, `PaddleStep`, `EventStep`,
`LogicStatus`, ...) computes from the old one. Lemmas about those step
functions state:
- walls turn the ball away;
- each reached block breaks once, with one event in list order;
- the ball is served clear of the paddle;
- lives fall by one at most;
- the countdown publishes its messages at the right frames.

Numbers are `real`. A square root the source takes with `Math.sqrt` is passed
in as a parameter `root` and constrained by `Scalars.IsSqrt`. In the play
field it is a function field `sqrt`, constrained by `PlayFields.IsRoot`.

The modules are:
- `Scalars`, in scalars.dfy;
- `Vectors`, in vector2d.dfy;
- `Planes`, in plane2d.dfy;
- `Circles`, in circle2d.dfy;
- `Rectangles`, in rectangle2d.dfy;
- `Contacts`, in contact2d.dfy;
- `Closest`, in closest2d.dfy;
- `Intersections`, in intersect2d.dfy;
- `Collisions`, in collide2d.dfy;
- `RayCasts`, in raycast2d.dfy;
- `Findings`, in findings.dfy;
- `Paddles`, in paddle.dfy;
- `PlayFields`, in playfield.dfy;
- `PlayingStates`, in gameplayingstate.dfy.

Four routines of the geometry package compute something other than what
they evidently intend; see "## Findings". For
`Closest2D.pointInSegment`, the class method `Closest.PointInSegment` models
the code as written, and `Closest.SegmentClosest` is the corrected function.
For the three ray casts, the methods `RayCasts.RayInPlane`,
`RayCasts.RayInHalfspace` and `RayCasts.RayInCircle` follow the Java line
for line and are proved to compute `RayCasts.PlaneCastAsWritten`,
`RayCasts.HalfspaceCastAsWritten` and `RayCasts.CircleCastAsWritten`. The
corrected computations are the functions `RayCasts.PlaneCast`,
`RayCasts.HalfspaceCast` and `RayCasts.CircleCast`, about which the
first-hit lemmas are proved.

## Model

| member | source | states |
|---|---|---|
| Vectors.Vector2D.Zero | app/src/main/java/com/terseworks/math/Vector2D.java:17-20 | the new vector is the origin |
| Vectors.Vector2D.Copy | app/src/main/java/com/terseworks/math/Vector2D.java:22-25 | the new vector has the other vector's components |
| Vectors.Vector2D.constructor | app/src/main/java/com/terseworks/math/Vector2D.java:27-31 | the new vector has the given components |
| Vectors.Normalized | app/src/main/java/com/terseworks/math/Vector2D.java:33-47 | the result always has squared length 1; a vector of squared length 0 becomes (1, 0); any other vector is the result scaled by its positive length |
| Vectors.NormalizedKeepsSigns | app/src/main/java/com/terseworks/math/Vector2D.java:33-47 | normalizing a non-zero vector keeps the sign of each component |
| Vectors.Vector2D.Normalize | app/src/main/java/com/terseworks/math/Vector2D.java:33-47 | in place, the vector's new value is Normalized of its old value |
| Vectors.Vector2D.Magnitude | app/src/main/java/com/terseworks/math/Vector2D.java:49-55 | the magnitude is non-negative and its square is the squared length |
| Planes.Plane2D.Zero | app/src/main/java/com/terseworks/math/Plane2D.java:19-22 | normal (0, 0) and offset 0, in a normal vector of its own |
| Planes.Plane2D.Copy | app/src/main/java/com/terseworks/math/Plane2D.java:24-27 | the same line, in a normal vector of its own |
| Planes.Plane2D.FromNormal | app/src/main/java/com/terseworks/math/Plane2D.java:29-32 | the normal's components are copied, never aliased |
| Planes.Plane2D.constructor | app/src/main/java/com/terseworks/math/Plane2D.java:34-38 | the line with the given normal components and offset |
| Planes.PlaneLeft | app/src/main/java/com/terseworks/math/Plane2D.java:40-46 | the line passes through point1, has a unit normal, and that normal is perpendicular to point2 - point1; two equal points give normal (1, 0) |
| Planes.PlaneRight | app/src/main/java/com/terseworks/math/Plane2D.java:48-54 | as PlaneLeft, with the right-hand perpendicular |
| Planes.RightIsFlippedLeft | app/src/main/java/com/terseworks/math/Plane2D.java:40-54 | for distinct points the right plane is the left plane with normal and offset negated: the same line facing the other way |
| Planes.AliasedLeftNormal | app/src/main/java/com/terseworks/math/Plane2D.java:42-43 | the normal calculatePlaneLeft builds, reading point1.x and point2.x after normal.x is written; with no aliasing it is the left-hand perpendicular of point2 - point1 |
| Planes.AliasedRightNormal | app/src/main/java/com/terseworks/math/Plane2D.java:50-51 | the same for calculatePlaneRight; with no aliasing it is the right-hand perpendicular |
| Planes.StoredLine | app/src/main/java/com/terseworks/math/Plane2D.java:44-45 | the stored line has a unit normal and passes through point1 as the routine leaves it, which is the normalized normal itself (offset -1) when point1 is the normal object; with no aliasing it is the line through point1 |
| Planes.Plane2D.CalculatePlaneLeft | app/src/main/java/com/terseworks/math/Plane2D.java:40-46 | in place, the new value is StoredLine of AliasedLeftNormal, so aliasing of the normal with either point is covered; with no aliasing the new value is PlaneLeft of the two points |
| Planes.Plane2D.CalculatePlaneRight | app/src/main/java/com/terseworks/math/Plane2D.java:48-54 | the same with AliasedRightNormal; with no aliasing the new value is PlaneRight of the two points |
| Circles.Circle2D.Zero | app/src/main/java/com/terseworks/math/Circle2D.java:18-21 | center (0, 0) and radius 0, in a center vector of its own |
| Circles.Circle2D.Copy | app/src/main/java/com/terseworks/math/Circle2D.java:23-26 | the same disc, in a center vector of its own |
| Circles.Circle2D.FromCenter | app/src/main/java/com/terseworks/math/Circle2D.java:28-31 | the center's components are copied, never aliased |
| Circles.Circle2D.constructor | app/src/main/java/com/terseworks/math/Circle2D.java:33-37 | the disc with the given center and radius |
| Rectangles.Rectangle2D.Zero | app/src/main/java/com/terseworks/math/Rectangle2D.java:17-20 | both corners (0, 0), in two distinct new vectors |
| Rectangles.Rectangle2D.Copy | app/src/main/java/com/terseworks/math/Rectangle2D.java:22-25 | the same box, in two distinct new vectors |
| Rectangles.Rectangle2D.FromCorners | app/src/main/java/com/terseworks/math/Rectangle2D.java:27-30 | the corners' components are copied, never aliased |
| Rectangles.Rectangle2D.constructor | app/src/main/java/com/terseworks/math/Rectangle2D.java:32-36 | the box with the given corners |
| Rectangles.ProjectedExtentBounds | app/src/main/java/com/terseworks/math/Intersect2D.java:227-238 | the center's projection plus and minus the projected extent are the largest and smallest projections of any point of a well-formed rectangle, reached at two of its corners |
| Contacts.Contact2D.Zero | app/src/main/java/com/terseworks/math/Contact2D.java:19-22 | an all-zero contact whose two vectors are distinct objects |
| Contacts.Contact2D.Copy | app/src/main/java/com/terseworks/math/Contact2D.java:24-27 | the same contact, in vectors of its own |
| Contacts.Contact2D.FromVectors | app/src/main/java/com/terseworks/math/Contact2D.java:29-32 | the vectors' components are copied, never aliased |
| Contacts.Contact2D.constructor | app/src/main/java/com/terseworks/math/Contact2D.java:34-39 | the contact with the given components |
| Contacts.Flipped | app/src/main/java/com/terseworks/math/Contact2D.java:44-50 | both vectors are negated and the depth kept; a consistent contact stays consistent |
| Contacts.FlipTwice | app/src/main/java/com/terseworks/math/Contact2D.java:44-50 | flipping twice gives back the contact |
| Contacts.Contact2D.Flip | app/src/main/java/com/terseworks/math/Contact2D.java:44-50 | in place, the contact's new value is Flipped of its old value |
| Contacts.TangentPerpendicular | app/src/main/java/com/terseworks/math/Collide2D.java:26-43 | the tangent every routine derives from the normal is perpendicular to it and as long |
| Closest.SegmentClosestAsWritten | app/src/main/java/com/terseworks/math/Closest2D.java:25-40 | as written, the answer is always a point of the segment |
| Closest.SegmentClosest | app/src/main/java/com/terseworks/math/Closest2D.java:25-40 | with the intended denominator, the answer is a point of the segment, and no point of the segment is nearer to p |
| Closest.SegmentClosestIsNearest | app/src/main/java/com/terseworks/math/Closest2D.java:25-40 | the clamped projection minimises the squared distance over the segment |
| Closest.PointInSegment | app/src/main/java/com/terseworks/math/Closest2D.java:25-40 | writes SegmentClosestAsWritten of the inputs into closestPoint |
| Closest.PlaneClosest | app/src/main/java/com/terseworks/math/Closest2D.java:46-52 | for a unit normal, the answer lies on the line |
| Closest.PlaneClosestIsNearest | app/src/main/java/com/terseworks/math/Closest2D.java:46-52 | for a unit normal, no point of the line is nearer to p |
| Closest.PointInPlane | app/src/main/java/com/terseworks/math/Closest2D.java:46-52 | writes PlaneClosest of the inputs into closestPoint |
| Closest.HalfspaceClosest | app/src/main/java/com/terseworks/math/Closest2D.java:58-72 | a point inside is its own answer; for a unit normal the answer is in the halfspace |
| Closest.HalfspaceClosestIsNearest | app/src/main/java/com/terseworks/math/Closest2D.java:58-72 | for a unit normal, no point of the halfspace is nearer to p |
| Closest.PointInHalfspace | app/src/main/java/com/terseworks/math/Closest2D.java:58-72 | writes HalfspaceClosest of the inputs into closestPoint |
| Closest.CircleClosest | app/src/main/java/com/terseworks/math/Closest2D.java:78-98 | a point in the disc is its own answer; a point outside goes to the circle, at a fraction between 0 and 1 of the way from the center to it; the answer is always in the disc |
| Closest.CircleClosestIsNearest | app/src/main/java/com/terseworks/math/Closest2D.java:78-98 | no point of the disc is nearer to the given point than the answer |
| Closest.PointInCircle | app/src/main/java/com/terseworks/math/Closest2D.java:78-98 | writes CircleClosest of the inputs into closestPoint |
| Closest.RectangleClosest | app/src/main/java/com/terseworks/math/Closest2D.java:104-112 | the answer is in a well-formed rectangle, and a point inside is its own answer |
| Closest.RectangleClosestIsNearest | app/src/main/java/com/terseworks/math/Closest2D.java:104-112 | no point of the rectangle is nearer to p |
| Closest.PointInRectangle | app/src/main/java/com/terseworks/math/Closest2D.java:104-112 | writes RectangleClosest of the inputs into closestPoint |
| Intersections.PointInPlane | app/src/main/java/com/terseworks/math/Intersect2D.java:24-29 | for a unit normal, true exactly when the point is its own closest point of the line |
| Intersections.PointInHalfspace | app/src/main/java/com/terseworks/math/Intersect2D.java:34-39 | for a unit normal, true exactly when the point is its own closest point of the halfspace |
| Intersections.PointInCircleIsFixedPoint | app/src/main/java/com/terseworks/math/Intersect2D.java:44-52 | a point is in the circle exactly when it is its own closest point of the circle |
| Intersections.PointInRectangle | app/src/main/java/com/terseworks/math/Intersect2D.java:57-60 | true exactly when the point is in the box, which for a well-formed box is being its own closest point |
| Intersections.SegmentInPlane | app/src/main/java/com/terseworks/math/Intersect2D.java:65-71 | true exactly when the endpoints' signed distances do not have strictly the same sign |
| Intersections.SegmentInPlaneWitness | app/src/main/java/com/terseworks/math/Intersect2D.java:65-71 | when it says yes, the segment has a point on the line |
| Intersections.SegmentInPlaneComplete | app/src/main/java/com/terseworks/math/Intersect2D.java:65-71 | when the segment has a point on the line, it says yes |
| Intersections.SegmentInHalfspace | app/src/main/java/com/terseworks/math/Intersect2D.java:76-82 | true exactly when an endpoint is in the halfspace |
| Intersections.SegmentInHalfspaceComplete | app/src/main/java/com/terseworks/math/Intersect2D.java:76-82 | any point of the segment in the halfspace makes it say yes |
| Intersections.SegmentInCircleAsWritten | app/src/main/java/com/terseworks/math/Intersect2D.java:87-108 | as written, a yes is always backed by a point of the segment in the circle |
| Intersections.SegmentInCircleAsWrittenTests | app/src/main/java/com/terseworks/math/Intersect2D.java:87-108 | as written, it tests the as-written closest point of the segment against the circle |
| Intersections.SegmentInCircle | app/src/main/java/com/terseworks/math/Intersect2D.java:87-108 | with the intended denominator, a yes means the nearest point of the segment is in the circle |
| Intersections.SegmentInCircleExact | app/src/main/java/com/terseworks/math/Intersect2D.java:87-108 | with the intended denominator, it says yes exactly when some point of the segment is in the circle |
| Intersections.NarrowAxis | app/src/main/java/com/terseworks/math/Intersect2D.java:120-142 | a narrowed span lies inside the span it came from, and is not empty when that span is not |
| Intersections.SlabClip | app/src/main/java/com/terseworks/math/Intersect2D.java:113-169 | a clipped span lies inside [0, 1] and is not empty |
| Intersections.NarrowAxisExact | app/src/main/java/com/terseworks/math/Intersect2D.java:120-150 | one slab step keeps exactly the parameters of the span whose point lies in the slab, including the zero-direction case |
| Intersections.SlabClipExact | app/src/main/java/com/terseworks/math/Intersect2D.java:113-169 | the clipped span holds exactly the parameters in [0, 1] whose point is in the rectangle |
| Intersections.SegmentInRectangle | app/src/main/java/com/terseworks/math/Intersect2D.java:113-169 | true exactly when some point of the segment, at a parameter between 0 and 1, is in the rectangle |
| Intersections.DegenerateSegmentInRectangle | app/src/main/java/com/terseworks/math/Intersect2D.java:113-169 | a segment whose two ends coincide meets the rectangle exactly when pointInRectangle says its point is in it |
| Intersections.SegmentInRectangleExact | app/src/main/java/com/terseworks/math/Intersect2D.java:113-169 | it says yes exactly when some point of the segment is in the rectangle; the start of the span is one |
| Intersections.CircleInPlane | app/src/main/java/com/terseworks/math/Intersect2D.java:174-179 | for a unit normal and a non-negative radius, true exactly when the center's projection on the line is in the circle |
| Intersections.CircleInPlaneComplete | app/src/main/java/com/terseworks/math/Intersect2D.java:174-179 | any point of the line in the circle makes it say yes |
| Intersections.CircleInHalfspace | app/src/main/java/com/terseworks/math/Intersect2D.java:184-189 | for a unit normal and a non-negative radius, true exactly when the center's closest point of the halfspace is in the circle |
| Intersections.CircleInHalfspaceComplete | app/src/main/java/com/terseworks/math/Intersect2D.java:184-189 | any point of the halfspace in the circle makes it say yes |
| Intersections.CircleInPlaneInHalfspace | app/src/main/java/com/terseworks/math/Intersect2D.java:174-189 | a circle that circleInPlane says meets the line, circleInHalfspace says meets the halfspace |
| Intersections.CircleInCircle | app/src/main/java/com/terseworks/math/Intersect2D.java:194-202 | for non-negative radii, true exactly when the two discs share a point |
| Intersections.CircleInCircleSymmetric | app/src/main/java/com/terseworks/math/Intersect2D.java:194-202 | the answer does not depend on the order of the circles |
| Intersections.CircleInCircleSound | app/src/main/java/com/terseworks/math/Intersect2D.java:194-202 | for non-negative radii, centers no farther apart than the sum of the radii give a point in both discs |
| Intersections.CircleInCircleComplete | app/src/main/java/com/terseworks/math/Intersect2D.java:194-202 | a point in both discs puts the centers no farther apart than the sum of the radii |
| Intersections.TouchPointInFirst | app/src/main/java/com/terseworks/math/Intersect2D.java:194-202 | for overlapping circles, the point dividing the centers' segment in the ratio of the radii is in the first disc |
| Intersections.TouchPointInSecond | app/src/main/java/com/terseworks/math/Intersect2D.java:194-202 | that point is also in the second disc |
| Intersections.CircleInRectangle | app/src/main/java/com/terseworks/math/Intersect2D.java:207-222 | for a well-formed rectangle, true exactly when some point of the rectangle is in the circle |
| Intersections.CircleInRectangleExact | app/src/main/java/com/terseworks/math/Intersect2D.java:207-222 | a point of the rectangle in the circle makes it say yes; when it says yes, the clamped point is such a point |
| Intersections.RectangleInPlane | app/src/main/java/com/terseworks/math/Intersect2D.java:227-238 | true exactly when the near corner is on or behind the line and the far corner on or in front of it |
| Intersections.RectangleInPlaneExact | app/src/main/java/com/terseworks/math/Intersect2D.java:227-238 | for a well-formed rectangle, true exactly when a point of the rectangle lies on the line |
| Intersections.RectangleInHalfspace | app/src/main/java/com/terseworks/math/Intersect2D.java:243-254 | true exactly when the corner nearest along the normal is in the halfspace |
| Intersections.RectangleInHalfspaceExact | app/src/main/java/com/terseworks/math/Intersect2D.java:243-254 | for a well-formed rectangle, true exactly when a point of the rectangle is in the halfspace |
| Intersections.RectangleInPlaneInHalfspace | app/src/main/java/com/terseworks/math/Intersect2D.java:227-254 | a rectangle that rectangleInPlane says meets the line, rectangleInHalfspace says meets the halfspace |
| Intersections.RectangleInRectangle | app/src/main/java/com/terseworks/math/Intersect2D.java:259-265 | for well-formed rectangles, a yes means the overlap corner is in both |
| Intersections.RectangleInRectangleExact | app/src/main/java/com/terseworks/math/Intersect2D.java:259-265 | a common point makes it say yes, and the answer does not depend on the order |
| Collisions.PointInPlaneContact | app/src/main/java/com/terseworks/math/Collide2D.java:26-43 | zero depth and the line's normal turned towards the point; for a unit normal, the normal's projection on the way from the nearest point of the line is the distance |
| Collisions.PointInPlane | app/src/main/java/com/terseworks/math/Collide2D.java:26-43 | writes PointInPlaneContact of the inputs into the contact |
| Collisions.PointInHalfspaceContact | app/src/main/java/com/terseworks/math/Collide2D.java:49-58 | the halfspace's normal; the depth is positive exactly when the point is strictly inside |
| Collisions.PointInHalfspaceResolves | app/src/main/java/com/terseworks/math/Collide2D.java:49-58 | pushing the point by the depth along the unit normal brings a point inside to the boundary |
| Collisions.PointInHalfspace | app/src/main/java/com/terseworks/math/Collide2D.java:49-58 | writes PointInHalfspaceContact of the inputs into the contact |
| Collisions.PointInCircleContact | app/src/main/java/com/terseworks/math/Collide2D.java:64-76 | a unit normal from the center towards the point, (1, 0) at the center, and depth radius minus distance, never negative |
| Collisions.PointInCircleDepth | app/src/main/java/com/terseworks/math/Collide2D.java:64-76 | a positive depth means the point is in the circle |
| Collisions.PointInCircleResolves | app/src/main/java/com/terseworks/math/Collide2D.java:64-76 | pushing a point inside by the depth along the normal puts it on the circle |
| Collisions.PointInCircle | app/src/main/java/com/terseworks/math/Collide2D.java:64-76 | writes PointInCircleContact of the inputs into the contact |
| Collisions.AxisContact | app/src/main/java/com/terseworks/math/Collide2D.java:89-106 | the contact is consistent: the tangent follows the normal and the depth is not negative |
| Collisions.WriteAxisContact | app/src/main/java/com/terseworks/math/Collide2D.java:199-217 | in place, the contact becomes AxisContact of the four distances |
| Collisions.AxisNormalChoice | app/src/main/java/com/terseworks/math/Collide2D.java:82-107 | the chosen normal names a side whose overlap is the least of the four, and the depth is that overlap |
| Collisions.PointInRectangleDepth | app/src/main/java/com/terseworks/math/Collide2D.java:82-107 | the depth is positive exactly for points strictly inside the rectangle |
| Collisions.PointInRectangleResolves | app/src/main/java/com/terseworks/math/Collide2D.java:82-107 | for a point of the rectangle, pushing it by the depth along the normal puts it on a side, by the shortest way out |
| Collisions.PointInRectangle | app/src/main/java/com/terseworks/math/Collide2D.java:82-107 | writes PointInRectangleContact of the inputs into the contact |
| Collisions.CircleInPlaneContact | app/src/main/java/com/terseworks/math/Collide2D.java:113-131 | the normal turned towards the center, and depth radius minus the center's distance, never negative |
| Collisions.CircleInPlaneResolves | app/src/main/java/com/terseworks/math/Collide2D.java:113-131 | pushing the center by the depth leaves it at least a radius from the line, on its own side |
| Collisions.CircleInPlane | app/src/main/java/com/terseworks/math/Collide2D.java:113-131 | writes CircleInPlaneContact of the inputs into the contact |
| Collisions.CircleInHalfspaceContact | app/src/main/java/com/terseworks/math/Collide2D.java:137-146 | the halfspace's normal; a positive depth means the circle reaches into the halfspace |
| Collisions.CircleInHalfspaceResolves | app/src/main/java/com/terseworks/math/Collide2D.java:137-146 | pushing the center by the depth leaves the circle at most touching the halfspace |
| Collisions.CircleInHalfspace | app/src/main/java/com/terseworks/math/Collide2D.java:137-146 | writes CircleInHalfspaceContact of the inputs into the contact |
| Collisions.CircleInCircleContact | app/src/main/java/com/terseworks/math/Collide2D.java:152-164 | the contact of the first center with the second circle grown by the first radius |
| Collisions.CircleInCircleDepth | app/src/main/java/com/terseworks/math/Collide2D.java:152-164 | a positive depth means the circles overlap; then the depth is the radii's sum minus the distance |
| Collisions.CircleInCircle | app/src/main/java/com/terseworks/math/Collide2D.java:152-164 | writes CircleInCircleContact of the inputs into the contact |
| Collisions.CircleInRectangleContact | app/src/main/java/com/terseworks/math/Collide2D.java:170-218 | the contact is consistent; a center beyond a corner gets the point-in-circle contact of the center with a circle of the same radius around the nearest corner; any other center gets the point-in-rectangle contact with the rectangle grown by the radius |
| Collisions.CircleInRectangleDepth | app/src/main/java/com/terseworks/math/Collide2D.java:170-218 | a positive depth means the circle overlaps the rectangle |
| Collisions.EdgeOverlap | app/src/main/java/com/terseworks/math/Collide2D.java:170-218 | a center beside an edge and strictly inside the grown rectangle is within a radius of the rectangle |
| Collisions.CircleInRectangle | app/src/main/java/com/terseworks/math/Collide2D.java:170-218 | writes CircleInRectangleContact of the inputs into the contact |
| Collisions.RectangleInPlaneContact | app/src/main/java/com/terseworks/math/Collide2D.java:224-249 | the normal turned towards the center, and depth projected extent minus distance; when crossing, the deepest corner is the depth behind the line |
| Collisions.RectangleInPlane | app/src/main/java/com/terseworks/math/Collide2D.java:224-249 | writes RectangleInPlaneContact of the inputs into the contact |
| Collisions.RectangleInHalfspaceContact | app/src/main/java/com/terseworks/math/Collide2D.java:255-270 | the contact of the deepest corner with the halfspace; a positive depth means overlap |
| Collisions.RectangleInHalfspace | app/src/main/java/com/terseworks/math/Collide2D.java:255-270 | writes RectangleInHalfspaceContact of the inputs into the contact |
| Collisions.RectangleInRectangleContact | app/src/main/java/com/terseworks/math/Collide2D.java:276-301 | the contact of the first center with the second rectangle grown by the first one's extent |
| Collisions.RectangleInRectangleByCenter | app/src/main/java/com/terseworks/math/Collide2D.java:276-301 | the rectangles overlap exactly when that center is in the grown rectangle, so a positive depth means overlap |
| Collisions.RectangleInRectangle | app/src/main/java/com/terseworks/math/Collide2D.java:276-301 | writes RectangleInRectangleContact of the inputs into the contact |
| RayCasts.PlaneCastAsWritten | app/src/main/java/com/terseworks/math/RayCast2D.java:25-47 | as written, a hit is a point of the line, a miss leaves rayTo, and a start on the line hits at the start |
| RayCasts.PlaneCast | app/src/main/java/com/terseworks/math/RayCast2D.java:25-47 | with direction rayTo - rayFrom, it hits exactly when segmentInPlane says yes, at a point of the line, and at rayFrom when rayFrom is on the line |
| RayCasts.PlaneHitExact | app/src/main/java/com/terseworks/math/RayCast2D.java:25-47 | the parameter is finite and in [0, 1] exactly when segmentInPlane says yes |
| RayCasts.PlaneCastFirst | app/src/main/java/com/terseworks/math/RayCast2D.java:25-47 | the contact point is the first point of the segment on the line |
| RayCasts.WriteContact | app/src/main/java/com/terseworks/math/RayCast2D.java:35-44 | in place, a hit writes the point at t along the direction from rayFrom, and a miss writes rayTo |
| RayCasts.RayInPlane | app/src/main/java/com/terseworks/math/RayCast2D.java:25-47 | returns and writes PlaneCastAsWritten of the inputs, with directionY taken from the x coordinates as in the source |
| RayCasts.HalfspaceCastAsWritten | app/src/main/java/com/terseworks/math/RayCast2D.java:53-76 | as written, a hit is in the halfspace, a miss leaves rayTo, and a start inside hits at once |
| RayCasts.HalfspaceCast | app/src/main/java/com/terseworks/math/RayCast2D.java:53-76 | with direction rayTo - rayFrom, it hits exactly when segmentInHalfspace says yes, at rayFrom when that is inside, otherwise on the boundary |
| RayCasts.HalfspaceHitExact | app/src/main/java/com/terseworks/math/RayCast2D.java:53-76 | the parameter is in [0, 1] exactly when segmentInHalfspace says yes |
| RayCasts.HalfspaceCastFirst | app/src/main/java/com/terseworks/math/RayCast2D.java:53-76 | the contact point is the first point of the segment in the halfspace |
| RayCasts.RayInHalfspace | app/src/main/java/com/terseworks/math/RayCast2D.java:53-76 | returns and writes HalfspaceCastAsWritten of the inputs, with the same directionY |
| RayCasts.CircleCastAsWritten | app/src/main/java/com/terseworks/math/RayCast2D.java:82-115 | as written, a start in the circle hits at once, a line missing the circle misses, and a hit is in the circle or is the start itself |
| RayCasts.InsideClampsToStart | app/src/main/java/com/terseworks/math/RayCast2D.java:95-99 | for a start in the circle the as-written parameter is 0 |
| RayCasts.CircleCast | app/src/main/java/com/terseworks/math/RayCast2D.java:82-115 | with the clamp only for a start inside, a start inside hits at the start, a line missing the circle misses, and a hit is in the circle |
| RayCasts.EntryOnCircle | app/src/main/java/com/terseworks/math/RayCast2D.java:96-99 | for a start outside, the entry root is a point of the circle |
| RayCasts.CircleCastFirst | app/src/main/java/com/terseworks/math/RayCast2D.java:82-115 | the contact point is the first point of the segment in the circle |
| RayCasts.CircleCastMeetsSegment | app/src/main/java/com/terseworks/math/RayCast2D.java:82-115 | for a non-zero direction, it hits exactly when the corrected segmentInCircle says yes |
| RayCasts.RayInCircle | app/src/main/java/com/terseworks/math/RayCast2D.java:82-115 | returns and writes CircleCastAsWritten of the inputs, with t clamped to 0 whenever the line meets the circle |
| RayCasts.RectangleCast | app/src/main/java/com/terseworks/math/RayCast2D.java:121-182 | it hits exactly when segmentInRectangle says yes, at the start of the clipped span, a point of the rectangle, and at rayFrom when that is inside |
| RayCasts.RectangleCastFirst | app/src/main/java/com/terseworks/math/RayCast2D.java:121-182 | the contact point is the first point of the segment in the rectangle |
| RayCasts.NarrowSlab | app/src/main/java/com/terseworks/math/RayCast2D.java:129-166 | one axis of the slab clipping: succeeds exactly when NarrowAxis keeps a span, and returns that span |
| RayCasts.RayInRectangle | app/src/main/java/com/terseworks/math/RayCast2D.java:121-182 | returns and writes RectangleCast of the inputs |
| Rectangles.Center | app/src/main/java/com/terseworks/math/Collide2D.java:226-229 | the center is min plus the extent and max minus it, and lies in a well-formed box |
| Collisions.Facing | app/src/main/java/com/terseworks/math/Collide2D.java:26-43 | the line seen from p's side: p's signed distance becomes its absolute value, the normal is kept or negated |
| Collisions.PointInRectangleContact | app/src/main/java/com/terseworks/math/Collide2D.java:82-107 | the contact is consistent: unit axis normal, tangent perpendicular, depth never negative |
| Collisions.CornerContact | app/src/main/java/com/terseworks/math/Collide2D.java:174-191 | the corner branch of circleInRectangle writes CircleInRectangleContact |
| Collisions.EdgeContact | app/src/main/java/com/terseworks/math/Collide2D.java:192-217 | the edge branch of circleInRectangle writes CircleInRectangleContact |
| Findings.SegmentClosestAsWrittenNotNearest | app/src/main/java/com/terseworks/math/Closest2D.java:29 | for the segment (0,0)-(0,1) and p = (0,1), the as-written answer is (0, 0.5), although p is on the segment |
| Findings.SegmentInCircleAsWrittenMisses | app/src/main/java/com/terseworks/math/Intersect2D.java:91 | the circle of radius 0.1 around (0,1) contains the endpoint, yet the as-written test says no and the corrected one yes |
| Findings.RayInPlaneSlipsOffSegment | app/src/main/java/com/terseworks/math/RayCast2D.java:28 | the segment (0,0)-(10,5) and the line y = 4: as written the hit is (4, 4), off the segment; corrected it is (8, 4) |
| Findings.RayInCircleHitsBehind | app/src/main/java/com/terseworks/math/RayCast2D.java:99 | the segment (5,0)-(10,0) and the unit circle at the origin: as written it hits at (5, 0), outside the circle |
| Findings.RayInCircleBehindMisses | app/src/main/java/com/terseworks/math/RayCast2D.java:95-100 | on that input the corrected routine misses |
| Paddles.Rectangle | app/src/main/java/org/librarysimplified/breakout/app/Paddle.kt:12-18 | the box is centred on the paddle's center with extent (radius, height / 2), well formed for non-negative measures |
| Paddles.RectangleCorners | app/src/main/java/org/librarysimplified/breakout/app/Paddle.kt:12-18 | the box is fixed by center and extent; its corners are center.x -/+ radius and center.y -/+ height / 2 |
| Paddles.RectangleFollowsCenter | app/src/main/java/org/librarysimplified/breakout/app/PlayField.kt:297-313 | moving the paddle's center.x moves its box sideways and keeps its top and bottom |
| Paddles.NewRectangle | app/src/main/java/org/librarysimplified/breakout/app/Paddle.kt:12-18 | a fresh Rectangle2D holding Rectangle of the paddle |
| PlayFields.PaddleX | app/src/main/java/org/librarysimplified/breakout/app/PlayField.kt:302-312 | when the screen is at least as wide as the paddle, the paddle stays on screen, a cursor position that fits is kept, and the result is the cursor clamped to [radius, width - radius] |
| PlayFields.MovedPaddle | app/src/main/java/org/librarysimplified/breakout/app/PlayField.kt:297-313 | the ball, the blocks and the events are kept; the paddle changes only in center.x, which becomes PaddleX of the new cursor x |
| PlayFields.MovedBall | app/src/main/java/org/librarysimplified/breakout/app/PlayField.kt:227-242 | a dead ball stays put; a live one moves deltaMs * speed along its direction, and it dies, with its speed reset to the default, exactly when center.y - radius reaches the screen's height |
| PlayFields.MoveBallStep | app/src/main/java/org/librarysimplified/breakout/app/PlayField.kt:227-242 | the ball becomes MovedBall of the old ball; BallFellOut is appended, once, exactly when a live ball stops being alive; the paddle, the blocks and the cursor are kept |
| PlayFields.WallTurned | app/src/main/java/org/librarysimplified/breakout/app/PlayField.kt:248-259 | the left wall turns the direction right, the top wall down, the right wall alone left; component sizes are kept; no touch, no change |
| PlayFields.WallStep | app/src/main/java/org/librarysimplified/breakout/app/PlayField.kt:244-266 | the ball's direction becomes the normalized turned direction; the rest of the ball, the paddle, the blocks and the cursor are kept |
| PlayFields.WallsTurnBallAway | app/src/main/java/org/librarysimplified/breakout/app/PlayField.kt:244-261 | for a moving ball and a sign-keeping normalize, the new direction heads away from each wall touched |
| PlayFields.WallEventIffTouched | app/src/main/java/org/librarysimplified/breakout/app/PlayField.kt:262-265 | exactly one BallBouncedWall is published when a wall is touched, and nothing otherwise |
| PlayFields.TouchesIsCircleOverlap | app/src/main/java/org/librarysimplified/breakout/app/PlayField.kt:283-284 | for non-negative radii, the reach test is the circle overlap test |
| PlayFields.WeightedMean | app/src/main/java/org/librarysimplified/breakout/app/PlayField.kt:272-275 | the average of two coordinates weighted by the other radius is the point r0 / (r0 + r1) of the way from the first to the second |
| PlayFields.CollisionPoint | app/src/main/java/org/librarysimplified/breakout/app/PlayField.kt:268-277 | the weighted mean is the point r0 / (r0 + r1) of the way from the first center to the second |
| PlayFields.CollisionPointInBoth | app/src/main/java/org/librarysimplified/breakout/app/PlayField.kt:268-277 | when the ball reaches a block, the collision point is in both circles |
| PlayFields.BreakEvent | app/src/main/java/org/librarysimplified/breakout/app/PlayField.kt:285-291 | the event published for block i is a BallBrokeBlock naming block i |
| PlayFields.BreakBlock | app/src/main/java/org/librarysimplified/breakout/app/PlayField.kt:282-293 | a live block the ball reaches is marked dead, an event is appended, and the speed becomes min(speed * 1.025, 5); otherwise nothing changes |
| PlayFields.Swept | app/src/main/java/org/librarysimplified/breakout/app/PlayField.kt:279-295 | the loop keeps the number of blocks, the ball's circle, the paddle, the cursor and the radii's validity |
| PlayFields.SweptBreaks | app/src/main/java/org/librarysimplified/breakout/app/PlayField.kt:279-295 | after the loop each visited block is dead if the ball reached it alive and is otherwise as it was; unvisited blocks are untouched |
| PlayFields.SweptStep | app/src/main/java/org/librarysimplified/breakout/app/PlayField.kt:281-293 | the step at block n - 1 decides on that block as it was before the loop |
| PlayFields.SweptEvents | app/src/main/java/org/librarysimplified/breakout/app/PlayField.kt:279-295 | the loop keeps the earlier events and appends one BallBrokeBlock per broken block, in list order, and nothing else |
| PlayFields.SweptSpeed | app/src/main/java/org/librarysimplified/breakout/app/PlayField.kt:289 | after any break the speed is at most 5; a speed in [0, 5] never falls; when nothing breaks the ball is unchanged |
| PlayFields.PaddleContact | app/src/main/java/org/librarysimplified/breakout/app/PlayField.kt:206-213 | the paddle contact is consistent: the tangent follows the normal and the depth is not negative |
| PlayFields.Reflect | app/src/main/java/org/librarysimplified/breakout/app/Vectors.kt:50-59 | the mirrored direction passed through the play field's normalization (a definition, no contract) |
| PlayFields.MirrorReflects | app/src/main/java/org/librarysimplified/breakout/app/Vectors.kt:50-56 | about a unit normal, mirroring reverses the component along the normal, keeps the length and undoes itself |
| PlayFields.Touches | app/src/main/java/org/librarysimplified/breakout/app/PlayField.kt:283-284 | the ball reaches the block: the squared distance of the centers is at most the squared sum of the radii, and that sum is not negative (a definition, no contract) |
| PlayFields.TouchesRight | app/src/main/java/org/librarysimplified/breakout/app/PlayField.kt:248 | the ball reaches the right wall (a definition, no contract) |
| PlayFields.TouchesLeft | app/src/main/java/org/librarysimplified/breakout/app/PlayField.kt:252 | the ball reaches the left wall (a definition, no contract) |
| PlayFields.TouchesTop | app/src/main/java/org/librarysimplified/breakout/app/PlayField.kt:256 | the ball reaches the top wall (a definition, no contract) |
| PlayFields.FellOut | app/src/main/java/org/librarysimplified/breakout/app/PlayField.kt:231-240 | a live ball whose move leaves it dead, which is when BallFellOut is published (a definition, no contract) |
| PlayFields.RaisedSpeed | app/src/main/java/org/librarysimplified/breakout/app/PlayField.kt:289 | the raised speed is at most 5, and no lower than a speed already in [0, 5] |
| PlayFields.PaddleStep | app/src/main/java/org/librarysimplified/breakout/app/PlayField.kt:202-225 | the field is unchanged exactly when the paddle contact's depth is not positive; the ball's circle, the paddle and the blocks are kept |
| PlayFields.PaddleBouncesOnlyOnOverlap | app/src/main/java/org/librarysimplified/breakout/app/PlayField.kt:202-225 | a ball that does not overlap the paddle's rectangle is not bounced |
| PlayFields.LogicStep | app/src/main/java/org/librarysimplified/breakout/app/PlayField.kt:316-326 | one logic frame keeps the radii valid |
| PlayFields.NoCollisionsWhileDead | app/src/main/java/org/librarysimplified/breakout/app/PlayField.kt:316-326 | when the ball is dead after moving, no block breaks, it is not bounced, and the only event is BallFellOut if it just fell |
| PlayFields.EventStep | app/src/main/java/org/librarysimplified/breakout/app/PlayField.kt:123-189 | the blocks and the events are kept; only GetReady changes the ball and the paddle, and it revives the ball in its default direction; the ball's radius is kept, so the radii stay valid |
| PlayFields.ServeClearOfPaddle | app/src/main/java/org/librarysimplified/breakout/app/PlayField.kt:170-183 | after GetReady the ball is centred over the paddle, above its top edge, and does not overlap it |
| PlayFields.PlayField.constructor | app/src/main/java/org/librarysimplified/breakout/app/PlayField.kt:13-27 | the given ball, paddle and blocks; cursor at the origin and up; no events; playPerfectly off |
| PlayFields.PlayField.MovePaddle | app/src/main/java/org/librarysimplified/breakout/app/PlayField.kt:297-313 | the new state is MovedPaddle of the old one |
| PlayFields.PlayField.MoveBall | app/src/main/java/org/librarysimplified/breakout/app/PlayField.kt:227-242 | the new state is MoveBallStep of the old one |
| PlayFields.PlayField.CollideBallWithWalls | app/src/main/java/org/librarysimplified/breakout/app/PlayField.kt:244-266 | the new state is WallStep of the old one |
| PlayFields.PlayField.CollideBallWithBlocks | app/src/main/java/org/librarysimplified/breakout/app/PlayField.kt:279-295 | the new state is Swept over all the blocks |
| PlayFields.PlayField.BreakIfHit | app/src/main/java/org/librarysimplified/breakout/app/PlayField.kt:282-293 | the new state is BreakBlock of the old one at block i |
| PlayFields.PlayField.CollideBallWithPaddle | app/src/main/java/org/librarysimplified/breakout/app/PlayField.kt:202-225 | the new state is PaddleStep of the old one |
| PlayFields.PlayField.OnLogic | app/src/main/java/org/librarysimplified/breakout/app/PlayField.kt:316-326 | the new state is LogicStep of the old one, and the play field stays valid |
| PlayFields.PlayField.OnEvent | app/src/main/java/org/librarysimplified/breakout/app/PlayField.kt:123-189 | the new state is EventStep of the old one, and a valid play field stays valid |
| PlayingStates.TruncatedDivision | app/src/main/java/org/librarysimplified/breakout/app/GamePlayingState.kt:39 | Int division truncating towards zero, with remainder bounds for a non-negative dividend |
| PlayingStates.PerMessage | app/src/main/java/org/librarysimplified/breakout/app/GamePlayingState.kt:39 | at least 3 frames at 4 frames a second or more, 0 below that |
| PlayingStates.CreateGetReadyStatus | app/src/main/java/org/librarysimplified/breakout/app/GamePlayingState.kt:35-50 | a GetReady status with the given start and lives and five announcements, PerMessage apart, three countdowns, then GO!, then the end |
| PlayingStates.CurrentAnnouncement | app/src/main/java/org/librarysimplified/breakout/app/GamePlayingState.kt:154-162 | an announcement found is one of the list and its time has come |
| PlayingStates.CurrentIsLastReached | app/src/main/java/org/librarysimplified/breakout/app/GamePlayingState.kt:154-162 | None exactly when no announcement's time has come; otherwise an announcement whose time has come with no later one in the list whose time has come |
| PlayingStates.GetReadyTimeline | app/src/main/java/org/librarysimplified/breakout/app/GamePlayingState.kt:35-50 | nothing is shown before the first period, the countdown for three periods, GO! for one, then the end |
| PlayingStates.AnyAlive | app/src/main/java/org/librarysimplified/breakout/app/GamePlayingState.kt:106 | some block is alive (a definition, no contract) |
| PlayingStates.EventStatus | app/src/main/java/org/librarysimplified/breakout/app/GamePlayingState.kt:98-140 | the status changes only on BallFellOut, or on BallBrokeBlock when no block is alive, where it becomes Won with the same lives |
| PlayingStates.EventStatusLives | app/src/main/java/org/librarysimplified/breakout/app/GamePlayingState.kt:105-140 | lives never rise, never fall below zero and fall by at most one; Lost only from one life on BallFellOut; Won only on BallBrokeBlock with no live block |
| PlayingStates.FellOutCountsDownAgain | app/src/main/java/org/librarysimplified/breakout/app/GamePlayingState.kt:128-140 | losing a ball with lives to spare restarts the countdown one second on, with one life fewer, and play resumes five periods later |
| PlayingStates.EventStatistics | app/src/main/java/org/librarysimplified/breakout/app/GamePlayingState.kt:105-126 | the fastest speed only rises and covers the speed after a break; bounce counts rise by one on their events only |
| PlayingStates.LogicStatus | app/src/main/java/org/librarysimplified/breakout/app/GamePlayingState.kt:168-205 | lives are kept; only GetReady can change, and only to Playing |
| PlayingStates.LogicEvents | app/src/main/java/org/librarysimplified/breakout/app/GamePlayingState.kt:168-192 | at most one event, and only during GetReady |
| PlayingStates.CountdownPlaysOut | app/src/main/java/org/librarysimplified/breakout/app/GamePlayingState.kt:164-192 | GetReady is published at the three countdown frames, Go at the fourth, and Playing starts from the fifth |
| PlayingStates.GamePlaying.constructor | app/src/main/java/org/librarysimplified/breakout/app/GamePlayingState.kt:18-27 | the countdown starts at frame 10 with three lives, and the statistics are zero |
| PlayingStates.GamePlaying.FindCurrentAnnouncement | app/src/main/java/org/librarysimplified/breakout/app/GamePlayingState.kt:154-162 | the loop returns CurrentAnnouncement of the announcements |
| PlayingStates.GamePlaying.OnEvent | app/src/main/java/org/librarysimplified/breakout/app/GamePlayingState.kt:91-152 | the play field takes EventStep first; then status and statistics become EventStatus and EventStatistics |
| PlayingStates.GamePlaying.OnLogic | app/src/main/java/org/librarysimplified/breakout/app/GamePlayingState.kt:164-206 | status becomes LogicStatus and LogicEvents are published; only while Playing does the play field take a LogicStep |

## Left out

- Floating point: all arithmetic is on `real`, so rounding, NaN and infinities are not modelled. In `RayCast2D`, a `float` division by a zero projection gives an infinite parameter, which the model writes as `None`. The `Float.MAX_VALUE` sentinel of `rayInCircle` is `RayCasts.FloatMax`.
- `Math.sqrt`: it is a parameter (`root`, with `Scalars.IsSqrt`) or the function field `PlayField.sqrt` (with `PlayFields.IsRoot`), because Dafny has no square root on `real`.
- `Vectors.normalize` in app/src/main/java/org/librarysimplified/breakout/app/Vectors.kt:44-48 is the function field `PlayField.unit`. The model assumes of it only that it keeps the sign of each component (`PlayFields.KeepsSigns`), which is all the wall and paddle lemmas need.
- `Vectors.distanceBetween` is used only in comparisons of distances, so the model compares squared distances instead.
- `Ball`, `Paddle` and `Block` are immutable records in the model. The `PointF` aliasing of the Kotlin objects is not modelled. For example, the `BallBouncedPaddle` event carries the ball's center object itself. Events name blocks by their index.
- `PlayFields.PlayField.Valid` requires a positive ball radius (`PlayFields.Sized`), because `collisionPoint` divides by the sum of the two radii.
- Explosions, rendering, sounds, the debug fields (`collisionNormalLast` and the others) and the `ScreenSizeChanged` event are not part of this model. They do not affect the ball, the paddle, the blocks, the events or the status.
- `GamePlayingState.onEvent` and `onLogic` return `null` (stay in this state). The model therefore has no next-state value for them.
- The `deltaMs` argument of `PlayField.onEvent` is unused in the source, and the model does not take it.
- `publishEvent` is modelled as appending to a log. The play field's log (`PlayField.events`) and the game state's log (`GamePlaying.published`) are kept separate.
- Kotlin `Int` arithmetic is unbounded in the model. Frame numbers and counters never wrap around at 32 bits.
- `PlayingStates.Statistics.ballSpeedMax` is a `real`, where the source has a `Float`.
- Closest.PointInSegment: requires a non-zero as-written denominator. The source divides a `float` by it, and a division by zero is not modelled.
- Intersections.SegmentInCircleAsWritten: requires a non-zero as-written denominator, for the same reason.
- Closest.PointInRectangle: requires that `closestPoint` is neither corner object of the rectangle. When it is, the Java code reads a corner it has already overwritten, and the model does not describe that case.
- Collisions.PointInHalfspace: requires that the point is not one of the contact's vectors, and that the plane's normal is not the contact's tangent. The aliased case is not modelled.
- Collisions.CircleInHalfspace: has the same aliasing requirement as `Collisions.PointInHalfspace`.
- RayCasts.RayInRectangle: requires that `contactPoint` is neither `rayFrom` nor a corner of the rectangle. The aliased case is not modelled.

## Findings

| source | as written | input that shows it | evidently intended | confidence | as-written member | corrected member |
|---|---|---|---|---|---|---|
| app/src/main/java/com/terseworks/math/Closest2D.java:29 | the squared direction length adds `directionY` to itself instead of squaring it | segment (0,0)-(0,1), point (0,1): the answer is (0, 0.5) | divide the projection by the direction's squared length, so the answer is the nearest point of the segment | high (not executed) | Findings.SegmentClosestAsWrittenNotNearest, Closest.SegmentClosestAsWritten | Closest.SegmentClosest, Closest.SegmentClosestIsNearest |
| app/src/main/java/com/terseworks/math/Intersect2D.java:91 | the same slip in `segmentInCircle` | segment (0,0)-(0,1), circle of radius 0.1 around (0,1): the answer is false, though the endpoint is in the circle | true exactly when some point of the segment is in the circle | high (not executed) | Findings.SegmentInCircleAsWrittenMisses, Intersections.SegmentInCircleAsWritten | Intersections.SegmentInCircle, Intersections.SegmentInCircleExact |
| app/src/main/java/com/terseworks/math/RayCast2D.java:28 | `directionY` is `rayTo.x - rayFrom.x` (and the same at line 56 in `rayInHalfspace`) | segment (0,0)-(10,5), line y = 4: the hit is (4, 4), not on the segment | direction `rayTo - rayFrom`, so the hit is the segment's point on the line, (8, 4) | high (not executed) | Findings.RayInPlaneSlipsOffSegment, RayCasts.PlaneCastAsWritten, RayCasts.HalfspaceCastAsWritten, RayCasts.RayInPlane, RayCasts.RayInHalfspace | RayCasts.PlaneCast, RayCasts.PlaneCastFirst, RayCasts.HalfspaceCast, RayCasts.HalfspaceCastFirst |
| app/src/main/java/com/terseworks/math/RayCast2D.java:99 | a negative entry parameter is clamped to 0 even when the start is outside the circle | segment (5,0)-(10,0), unit circle at the origin: the hit is (5, 0), outside the circle | clamp only when the start is in the circle; a circle behind the start is missed | high (not executed) | Findings.RayInCircleHitsBehind, RayCasts.CircleCastAsWritten, RayCasts.RayInCircle | RayCasts.CircleCast, RayCasts.CircleCastFirst, Findings.RayInCircleBehindMisses |
