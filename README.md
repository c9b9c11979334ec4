# javaGeom straight lines and polyline utilities, in Dafny

This project models two parts of the javaGeom 2D geometry library and proves
properties of the model.

- **`StraightLine2D`** (`straight_line.dfy`, module `StraightLine2D`). An
  immutable infinite line is stored as an origin `(x0, y0)` and a direction
  `(dx, dy)`. The model covers:
  - the parallel line at signed distance `d`;
  - the perpendicular line through a point;
  - the reversed line;
  - the parametric point;
  - the line through two points;
  - the Cartesian constructor `a*x + b*y + c = 0`;
  - the image under an affine map;
  - the degenerate rule of the circle inversion;
  - the winding angle;
  - tolerance-based equality;
  - the operations that always fail because a line is unbounded.
- **`Polylines2D`** (`polylines.dfy`, module `Polylines2D`). This covers:
  - the duplicate-vertex test `hasMultipleVertices`;
  - the parallel-curve builders `createParallel` and `createClosedParallel`, with their helper `addCircleArc`;
  - the edge-pair intersection collector `intersect`.

  The builders walk the vertices of an open polyline or of a closed ring. At
  each corner they either truncate the pending segment where the two
  parallels meet, or emit it whole followed by a circle arc around the
  vertex. They are written as imperative methods that fill a `PolyCurve`
  object (its `pieces` list and `closed` flag). Each method is proved equal
  to the specification function `ParallelPieces`, and lemmas state what
  that function produces.
- `geom2d.dfy` (module `Geom2D`) holds the shared vocabulary:
  - points;
  - the tolerance `ACCURACY = 1e-12`;
  - `PI`;
  - the error kinds;
  - `Result`/`Option`;
  - extended reals for infinite bounds.

Coordinates are exact reals. Some quantities are not computed in the model,
and every theorem holds whatever values they take:
- square roots and `hypot` enter as a positive norm argument (`IsNorm` says
  when it is the true norm);
- `atan2`, `cos`, `sin` and `Angle2D.getHorizontalAngle` enter as function
  arguments;
- the collaborators of the parallel-curve walk are the fields of a
  `Geometry` value: `Angle2D.angle`, the intersection of two straight lines,
  the orthogonal projection, `Circle2D.position` and the norm;
- `LineSegment2D.intersection` and `PointSets2D.hasAdjacentMultipleVertices`
  are function arguments as well.

Failures become a `Failure` value:
- `UnboundedShape` for the Java exception `UnboundedShape2DException`;
- `NullPointer` for a dereferenced null point (a `NullPointerException` in
  Java): the intersection of two parallel lines in the walk, or the first
  point of an empty closed polyline in `hasMultipleVertices`;
- `NotANumber` for the Cartesian constructor with `a = b = 0`. The Java
  constructor throws nothing there: it divides 0 by 0 and stores a NaN
  origin. The model reports that construction as `NotANumber` instead.

## Model

| member | source | states |
|---|---|---|
| StraightLine2D.Parallel | src/math/geom2d/line/StraightLine2D.java:261-264 | getParallel(d) keeps the direction and moves the origin orthogonally to it; d = 0 gives back the same line |
| StraightLine2D.CreateParallel | src/math/geom2d/line/StraightLine2D.java:122-128 | createParallel(linear, d) on the supporting line is the same line as getParallel(d) |
| StraightLine2D.ParallelDistance | src/math/geom2d/line/StraightLine2D.java:257-264 | when dd is the true norm, every point of the parallel lies at distance abs(d) from the line, on its right for d > 0 (cross product -d*dd) |
| StraightLine2D.ParallelCompose | src/math/geom2d/line/StraightLine2D.java:261-264 | the parallel at d2 of the parallel at d1 is the parallel at d1 + d2, so -d undoes d |
| StraightLine2D.Perpendicular | src/math/geom2d/line/StraightLine2D.java:270-273 | getPerpendicular(p) has origin p and a direction orthogonal to the line's and of the same length, turned counter-clockwise |
| StraightLine2D.CreatePerpendicular | src/math/geom2d/line/StraightLine2D.java:136-140 | createPerpendicular(linear, p) is the same line as getPerpendicular(p) |
| StraightLine2D.PerpendicularTwice | src/math/geom2d/line/StraightLine2D.java:270-273 | two perpendiculars give direction (-dx, -dy) and four give back (dx, dy) |
| StraightLine2D.Reverse | src/math/geom2d/line/StraightLine2D.java:425-427 | getReverseCurve keeps the origin and negates the direction |
| StraightLine2D.ReverseInvolution | src/math/geom2d/line/StraightLine2D.java:425-427 | reversing twice gives the same line, and the point of parameter t on the reverse is the point of parameter -t on the line |
| StraightLine2D.PointAt | src/math/geom2d/line/StraightLine2D.java:406-408 | getPoint(t) lies on the line and getPoint(0) is the origin |
| StraightLine2D.PointAtInjective | src/math/geom2d/line/StraightLine2D.java:406-408 | on a line with a non-zero direction, distinct parameters give distinct points |
| StraightLine2D.Through | src/math/geom2d/line/StraightLine2D.java:174-177 | the line through p1 and p2 has p1 at parameter 0 and p2 at parameter 1; its direction is non-zero exactly when p1 != p2 |
| StraightLine2D.FromCartesian | src/math/geom2d/line/StraightLine2D.java:232-240 | fails (NaN) exactly when a = b = 0; otherwise the origin satisfies a*x0 + b*y0 + c = 0 and lies on the normal (a, b) through (0, 0) |
| StraightLine2D.Transform | src/math/geom2d/line/StraightLine2D.java:468-476 | transform(AffineTransform2D) maps the origin by the whole map and the direction by its linear part only |
| StraightLine2D.TransformPointAt | src/math/geom2d/line/StraightLine2D.java:468-476 | the transformed line is the image of the line, point by point |
| StraightLine2D.TransformIdentity | src/math/geom2d/line/StraightLine2D.java:468-476 | the identity coefficients [1,0,0,0,1,0] give back the same line |
| StraightLine2D.TransformCompose | src/math/geom2d/line/StraightLine2D.java:468-476 | transforming twice is transforming once by the composed map |
| StraightLine2D.Project | src/math/geom2d/line/StraightLine2D.java:284 | the projected point lies on the line, and the residual is orthogonal to the direction |
| StraightLine2D.ProjectIdempotent | src/math/geom2d/line/StraightLine2D.java:284-285 | a projected point projects onto itself |
| StraightLine2D.ProjectionDistance | src/math/geom2d/line/StraightLine2D.java:441-448 | the squared distance from a point to its projection, times the squared norm of the direction, is the squared cross product (Lagrange's identity) |
| StraightLine2D.ParallelPointDistance | src/math/geom2d/line/StraightLine2D.java:257-264 | with the true norm, the point of parameter s on the parallel at d and the point of parameter t on the line are d^2 + (s - t)^2 * |direction|^2 apart, squared: the offset is orthogonal to the direction |
| StraightLine2D.ProjectOnParallel | src/math/geom2d/line/StraightLine2D.java:257-264 | with the true norm, a point of the line projects on its parallel at d to the parallel's point of the same parameter, at distance abs(d) |
| StraightLine2D.InvertAsWrittenAlwaysSameLine | src/math/geom2d/line/StraightLine2D.java:284-291 | as written, the degenerate test measures the projected centre, so every line is returned as its own image |
| StraightLine2D.Invert | src/math/geom2d/line/StraightLine2D.java:284-291 | corrected rule: the line is its own image exactly when the centre lies closer than ACCURACY to it; otherwise the image is a circle |
| StraightLine2D.InversionCounterexample | src/math/geom2d/line/StraightLine2D.java:284-291 | for the x-axis and centre (0, 5) the corrected rule gives a circle and the code as written gives the axis |
| StraightLine2D.WindingAngleSign | src/math/geom2d/line/StraightLine2D.java:328-345 | with both horizontal angles in [0, 2*PI), the winding angle is positive exactly for an inside point, and inside minus outside is 2*PI |
| StraightLine2D.AlmostEqualsMeaning | src/math/geom2d/line/StraightLine2D.java:510-528 | almostEquals holds iff the object is this very object, or a straight line whose four components each differ by at most eps; equals is the same test at ACCURACY (lines 540-554) |
| StraightLine2D.AlmostEqualsProperties | src/math/geom2d/line/StraightLine2D.java:510-554 | the tolerance test is symmetric, reflexive for eps >= 0 and monotone in eps; equals is symmetric and reflexive |
| StraightLine2D.BoundingBox | src/math/geom2d/line/StraightLine2D.java:450-463 | the box is always unbounded on all four sides, because abs(..) < 0 never holds |
| StraightLine2D.UnboundedContract | src/math/geom2d/line/StraightLine2D.java:354-502 | getAsPolyline, getFirstPoint, getLastPoint, appendPath and getGeneralPath fail with UnboundedShape; isBounded is false; T0 is -infinity and T1 is +infinity; the box is unbounded |
| StraightLine2D.WindingAngle | src/math/geom2d/line/StraightLine2D.java:328-345 | getWindingAngle from the two horizontal angles of the direction; its meaning is stated by WindingAngleSign |
| StraightLine2D.AlmostEquals | src/math/geom2d/line/StraightLine2D.java:510-528 | almostEquals(obj, eps); its meaning is stated by AlmostEqualsMeaning and AlmostEqualsProperties |
| StraightLine2D.Equals | src/math/geom2d/line/StraightLine2D.java:540-554 | equals(obj), the tolerance test at ACCURACY; stated by AlmostEqualsMeaning and AlmostEqualsProperties |
| StraightLine2D.InvertAsWritten | src/math/geom2d/line/StraightLine2D.java:279-291 | transform(CircleInversion2D) as written, with the distance measured from the projected centre; stated by InvertAsWrittenAlwaysSameLine |
| StraightLine2D.IsBounded | src/math/geom2d/line/StraightLine2D.java:437-439 | isBounded() is false; stated by UnboundedContract |
| StraightLine2D.T0 | src/math/geom2d/line/StraightLine2D.java:391-393 | getT0() is -infinity; stated by UnboundedContract |
| StraightLine2D.T1 | src/math/geom2d/line/StraightLine2D.java:399-401 | getT1() is +infinity; stated by UnboundedContract |
| StraightLine2D.AsPolyline | src/math/geom2d/line/StraightLine2D.java:355-357 | getAsPolyline(n) fails with UnboundedShape; stated by UnboundedContract |
| StraightLine2D.FirstPoint | src/math/geom2d/line/StraightLine2D.java:365-367 | getFirstPoint() fails with UnboundedShape; stated by UnboundedContract |
| StraightLine2D.LastPoint | src/math/geom2d/line/StraightLine2D.java:371-373 | getLastPoint() fails with UnboundedShape; stated by UnboundedContract |
| StraightLine2D.AppendPath | src/math/geom2d/line/StraightLine2D.java:429-431 | appendPath(path) fails with UnboundedShape; stated by UnboundedContract |
| StraightLine2D.GeneralPath | src/math/geom2d/line/StraightLine2D.java:500-502 | getGeneralPath() fails with UnboundedShape; stated by UnboundedContract |
| Polylines2D.HasMultipleVertices | src/math/geom2d/polygon/Polylines2D.java:44-59 | true iff adjacent duplicates exist or (closed and the end points are closer than ACCURACY); fails only when closed with no vertex at all |
| Polylines2D.HasMultipleVerticesOpen | src/math/geom2d/polygon/Polylines2D.java:36-38 | the one-argument form never fails and equals the adjacent-duplicate test |
| Polylines2D.MultipleVerticesClosedWeaker | src/math/geom2d/polygon/Polylines2D.java:36-59 | a true result for closed = false implies a true result for closed = true |
| Polylines2D.TurnTestFlip | src/math/geom2d/polygon/Polylines2D.java:152 | for a fixed angle, d and -d (d != 0) take opposite branches |
| Polylines2D.ArcAt | src/math/geom2d/polygon/Polylines2D.java:340-346 | the arc is centred at the vertex, has radius abs(d) and is direct exactly when d > 0 |
| Polylines2D.AddCircleArc | src/math/geom2d/polygon/Polylines2D.java:340-346 | appends exactly that arc and changes nothing else |
| Polylines2D.Corner | src/math/geom2d/polygon/Polylines2D.java:145-168 | one loop iteration does what Step specifies, and reports failure exactly when Step fails |
| Polylines2D.WalkEdges | src/math/geom2d/polygon/Polylines2D.java:145-169 | the main loop does what Walk specifies over vertices 1 .. n-2 |
| Polylines2D.RingWalk | src/math/geom2d/polygon/Polylines2D.java:100-196 | the ring branch (initialisation, loop, post-processing) produces RingParallel's pieces, or fails exactly when RingParallel does |
| Polylines2D.CreateParallel | src/math/geom2d/polygon/Polylines2D.java:72-204 | returns a fresh curve that is closed exactly for a ring, has no pieces for fewer than 2 vertices and otherwise holds ParallelPieces; fails with NullPointer exactly when ParallelPieces does |
| Polylines2D.CreateClosedParallel | src/math/geom2d/polygon/Polylines2D.java:217-332 | returns a fresh closed curve with the same pieces as createParallel on the same ring |
| Polylines2D.StepShape | src/math/geom2d/polygon/Polylines2D.java:147-168 | a corner fails exactly when it truncates and the parallels do not meet; otherwise it moves to the new edge, keeps the earlier pieces and appends one segment starting at p1, plus one arc exactly when it does not truncate; when it truncates, p1 becomes the intersection of the two parallels and the segment runs from the old p1 to it; when it does not, p1 is kept and exactly the segment from p1 to p2 and the arc around v1 from p2 back to p1 (addCircleArc) are appended |
| Polylines2D.StepKeepsInvariant | src/math/geom2d/polygon/Polylines2D.java:152-164 | a corner keeps the pieces chained and its arcs centred at vertices with radius abs(d) |
| Polylines2D.WalkShape | src/math/geom2d/polygon/Polylines2D.java:145-169 | the loop succeeds exactly when the parallels meet at every truncating vertex it visits, and ends on the last edge it visited |
| Polylines2D.StepMeets | src/math/geom2d/polygon/Polylines2D.java:147-168 | the corner at vertex j succeeds exactly when the parallels of its two edges meet or the test does not truncate there, and moves to the parallel of the next edge |
| Polylines2D.WalkPrefix | src/math/geom2d/polygon/Polylines2D.java:145-169 | the loop only appends to the pieces it started with, and its first emitted piece is a segment starting at the initial p1 |
| Polylines2D.WalkCounts | src/math/geom2d/polygon/Polylines2D.java:145-169 | the loop emits one segment per vertex it visits and one arc per visited vertex where the test does not truncate |
| Polylines2D.StepArcCentres | src/math/geom2d/polygon/Polylines2D.java:152-164 | a corner adds the arc centre v1 to the list of arc centres exactly when the test does not truncate, and nothing otherwise |
| Polylines2D.WalkArcCentres | src/math/geom2d/polygon/Polylines2D.java:145-169 | the loop emits its arcs around exactly the non-truncating vertices among 1 .. k-1, one each, in vertex order |
| Polylines2D.WalkKeepsInvariant | src/math/geom2d/polygon/Polylines2D.java:145-169 | the loop keeps the pieces chained and the arcs well formed |
| Polylines2D.WalkFailureSticky | src/math/geom2d/polygon/Polylines2D.java:145-169 | once an iteration fails, the walk stays failed |
| Polylines2D.OpenParallelOutcome | src/math/geom2d/polygon/Polylines2D.java:130-169 | an open polyline with n >= 2 vertices succeeds iff the parallels meet at every interior vertex where the test truncates; otherwise it fails with NullPointer |
| Polylines2D.OpenParallelCounts | src/math/geom2d/polygon/Polylines2D.java:130-200 | on success: n-1 segments and one arc per interior vertex where the test does not truncate, and nothing else |
| Polylines2D.OpenParallelArcCentres | src/math/geom2d/polygon/Polylines2D.java:130-200 | the arcs of an open polyline's parallel are centred at exactly the interior vertices where the test does not truncate, one each, in vertex order |
| Polylines2D.OpenParallelFacts | src/math/geom2d/polygon/Polylines2D.java:130-200 | on success: the pieces are chained and the arcs well formed; the curve runs from the projection of the first vertex on the first parallel to the projection of the last vertex on the last parallel |
| Polylines2D.LastEdgeParallel | src/math/geom2d/polygon/Polylines2D.java:104-105 | the parallel of the last edge built with createParallel is the parallel of the edge (v[n-1], v[0]) |
| Polylines2D.RingStartOutcome | src/math/geom2d/polygon/Polylines2D.java:100-129 | the ring initialisation fails exactly when vertex 0 truncates and the parallels of the last and first edges do not meet; otherwise it leaves the walk on the parallel of the first edge |
| Polylines2D.RingStartPieces | src/math/geom2d/polygon/Polylines2D.java:100-129 | after a truncation at vertex 0 nothing is emitted and p1 = p0; otherwise the arc at v[0] from p0 to p1 is emitted; p0 is the intersection of the parallels of the first and last edges after a truncation, and the projection of v[0] on the last edge's parallel otherwise |
| Polylines2D.RingStartFacts | src/math/geom2d/polygon/Polylines2D.java:100-129 | the initial ring state satisfies the walk invariant, holds no segment, and holds one arc exactly when vertex 0 does not truncate |
| Polylines2D.RingStagesMeet | src/math/geom2d/polygon/Polylines2D.java:100-181 | the initialisation, the loop and the corner at the last vertex all succeed iff the parallels meet at every truncating vertex of the ring |
| Polylines2D.RingParallelOutcome | src/math/geom2d/polygon/Polylines2D.java:100-196 | a ring's parallel fails, with NullPointer, exactly when the parallels fail to meet at some truncating vertex, the first and last included |
| Polylines2D.RingParallelCounts | src/math/geom2d/polygon/Polylines2D.java:100-196 | a ring with n >= 2 vertices gives n segments and one arc per non-truncating vertex (vertex 0 and vertex n-1 included) |
| Polylines2D.RingParallelArcCentres | src/math/geom2d/polygon/Polylines2D.java:100-196 | the arcs of a ring's parallel are centred at exactly the vertices where the test does not truncate, one each, in order from vertex 0 to vertex n-1 |
| Polylines2D.RingParallelChained | src/math/geom2d/polygon/Polylines2D.java:173-196 | a ring's parallel is chained, its arcs are centred at vertices with radius abs(d), and the last segment ends at p0 |
| Polylines2D.RingParallelClosed | src/math/geom2d/polygon/Polylines2D.java:118-126 | the ring closes up: after a truncation at vertex 0 the first segment starts where the last one ends; otherwise the arc at vertex 0 runs from the end of the last segment to the start of the first |
| Polylines2D.EdgeParallel | src/math/geom2d/polygon/Polylines2D.java:149 | `new StraightLine2D(v1, v2).parallel(d)`, the parallel of an edge; LastEdgeParallel ties the ring's last edge to it |
| Polylines2D.TurnTest | src/math/geom2d/polygon/Polylines2D.java:152 | the branch test `angle > PI ^ d < 0`; TurnTestFlip states how it depends on the sign of d |
| Polylines2D.Step | src/math/geom2d/polygon/Polylines2D.java:147-168 | one corner of the walk; StepShape, StepMeets and StepKeepsInvariant state what it produces, and Corner is proved equal to it |
| Polylines2D.Walk | src/math/geom2d/polygon/Polylines2D.java:145-169 | the main loop over vertices 1 .. k-1; WalkShape, WalkPrefix, WalkCounts, WalkKeepsInvariant and WalkFailureSticky state its meaning, and WalkEdges is proved equal to it |
| Polylines2D.OpenStart | src/math/geom2d/polygon/Polylines2D.java:131-139 | the open-polyline initialisation on the first edge; its effect is stated by OpenParallelOutcome, OpenParallelCounts and OpenParallelFacts |
| Polylines2D.OpenParallel | src/math/geom2d/polygon/Polylines2D.java:130-200 | the parallel pieces of an open polyline; stated by OpenParallelOutcome, OpenParallelCounts and OpenParallelFacts |
| Polylines2D.RingStart | src/math/geom2d/polygon/Polylines2D.java:100-129 | the ring initialisation; stated by RingStartOutcome, RingStartPieces and RingStartFacts |
| Polylines2D.RingParallel | src/math/geom2d/polygon/Polylines2D.java:100-196 | the parallel pieces of a ring; stated by RingParallelOutcome, RingParallelCounts, RingParallelChained and RingParallelClosed |
| Polylines2D.ParallelPieces | src/math/geom2d/polygon/Polylines2D.java:72-204 | the pieces createParallel adds, by the kind of the polyline; CreateParallel is proved equal to it |
| Polylines2D.WalkExtends | src/math/geom2d/polygon/Polylines2D.java:145-169 | a longer run of the loop keeps the pieces of a shorter one, and the first piece it adds after them is a segment from the shorter run's pending start p1 |
| Polylines2D.OpenRestart | src/math/geom2d/polygon/Polylines2D.java:130-166 | when the corner at vertex 1 emits an arc, the pieces begin with the first segment, the arc around vertex 1 back to the segment's start, and a segment from that same start |
| Polylines2D.FootOffCircle | src/math/geom2d/polygon/Polylines2D.java:136-139 | with the exact projection and norm, the start p1 of the first segment is d^2 + the squared edge length away from vertex 1, squared, so it is off the circle of radius abs(d) around vertex 1 |
| Polylines2D.OpenParallelGap | src/math/geom2d/polygon/Polylines2D.java:159-164 | as written, with exact collaborators, an open polyline whose corner at vertex 1 emits an arc gives a curve that is not continuous: the third piece restarts at the first piece's start, off the arc's circle |
| Polylines2D.StepIntended | src/math/geom2d/polygon/Polylines2D.java:145-166 | the corner with the arc branch corrected: the arc ends at the foot of v1 on the next parallel, which becomes p1, as the ring initialisation does at lines 117-125; stated by StepIntendedContinuous |
| Polylines2D.OpenParallelIntended | src/math/geom2d/polygon/Polylines2D.java:130-200 | the open-polyline parallel built with the corrected corner; stated by OpenParallelIntendedContinuous |
| Polylines2D.RingParallelIntended | src/math/geom2d/polygon/Polylines2D.java:100-196 | the ring parallel built with the corrected corner, in the loop and at the last vertex; stated by RingParallelIntendedContinuous |
| Polylines2D.EdgeFeetOnCircles | src/math/geom2d/polygon/Polylines2D.java:145-166 | with the exact projection and norm, the feet of both end points of an edge on its parallel are that parallel's points of parameter 0 and 1, and lie on the circles of radius abs(d) around those end points |
| Polylines2D.AppendSegment | src/math/geom2d/polygon/Polylines2D.java:155-162 | appending a segment from the point the pieces reach keeps them continuous, and the segment's end becomes the point they reach |
| Polylines2D.AppendArc | src/math/geom2d/polygon/Polylines2D.java:340-346 | appending, after a segment ending at p2, the arc around v1 from p2 to a point q with p2 and q on the circle of radius abs(d) keeps the pieces continuous, and they then reach q |
| Polylines2D.StepIntendedContinuous | src/math/geom2d/polygon/Polylines2D.java:145-166 | with exact collaborators, the corrected corner keeps the curve continuous, its pending segment starting where the pieces end, and moves to the next edge's parallel with p2 the foot of v2 |
| Polylines2D.WalkIntendedContinuous | src/math/geom2d/polygon/Polylines2D.java:145-169 | the loop with the corrected corner keeps the curve continuous through every corner and ends on the last visited edge's parallel |
| Polylines2D.OpenParallelIntendedContinuous | src/math/geom2d/polygon/Polylines2D.java:130-200 | with exact collaborators, the corrected parallel of an open polyline is continuous, as the documentation at lines 62-63 promises |
| Polylines2D.RingParallelIntendedContinuous | src/math/geom2d/polygon/Polylines2D.java:100-196 | with exact collaborators (the closing edge included), the corrected parallel of a ring is continuous from its first piece to the closing segment, as the documentation at lines 62-63 promises |
| Polylines2D.Candidates | src/math/geom2d/polygon/Polylines2D.java:364-374 | the points the nested loop offers, in row-major order; stated by CandidatesMembers and CandidatesSize |
| Polylines2D.Dedup | src/math/geom2d/polygon/Polylines2D.java:364-374 | the contains-then-add rule applied to each offered point; stated by DedupFacts and DedupOrder |
| Polylines2D.Intersect | src/math/geom2d/polygon/Polylines2D.java:357-377 | the nested loop returns the first occurrences of the non-null edge-pair intersections, in row-major order |
| Polylines2D.IntersectFacts | src/math/geom2d/polygon/Polylines2D.java:357-377 | the result has no duplicates, holds a point iff some edge pair intersects there, has at most one point per edge pair, and keeps first-occurrence order |
| Polylines2D.IntersectSymmetric | src/math/geom2d/polygon/Polylines2D.java:357-377 | with a symmetric segment intersection, swapping the two polylines gives the same set of points |
| Polylines2D.DedupFacts | src/math/geom2d/polygon/Polylines2D.java:368-371 | the contains-then-add rule keeps each point once and only the points offered |
| Polylines2D.DedupOrder | src/math/geom2d/polygon/Polylines2D.java:368-371 | the contains-then-add rule keeps points in the order of their first occurrence |
| Polylines2D.CandidatesMembers | src/math/geom2d/polygon/Polylines2D.java:364-374 | a point is offered by the loop iff it is the intersection of some edge pair |
| Polylines2D.CandidatesSize | src/math/geom2d/polygon/Polylines2D.java:364-374 | the loop offers at most one point per edge pair |

## Left out

- Square roots, `hypot`, `atan2`, `cos`, `sin`, `Angle2D`, `Circle2D.position` and the orthogonal projection used by the walk are not computed: they enter as arguments, and the theorems hold for any values.
- IEEE double rounding, infinities and NaN are not modelled. Coordinates are exact reals.
- A zero-length edge in the parallel-curve walk is accepted, but the model's result differs from the source's. In Java the norm is 0 and the parallel line gets a NaN origin. In the model the norm is some positive value, and the parallel is the edge's own line with direction (0, 0).
- The circle branch of `transform(CircleInversion2D)` is not modelled. It computes the image circle's centre and radius with polar coordinates. Only the degenerate "line maps to itself" rule is modelled.
- `getDistance(x, y)` (StraightLine2D.java:441-448) and `contains` (StraightLine2D.java:486-497) are overridden in `StraightLine2D`, but they only delegate to `getProjectedPoint` and `supportContains` of `AbstractLine2D`, which is not part of this model. `getProjectedPoint` is modelled by `Project`, the exact orthogonal projection, and `ProjectionDistance` states the distance from a point to it. `isInside` and `supportContains` are not modelled.
- The constructors from a point and an angle, a point and a vector, and a parallel through a point are not modelled, and neither is `createCartesian` (a plain call of the constructor). These are pure field copies or depend on cos/sin.
- StraightLine2D.FromCartesian: the direction produced by the Cartesian constructor comes from `atan2`, `cos` and `sin`, which are arguments. Only the origin is constrained.
- `getSingularPoints`, `isSingular`, `getContinuousCurves`, `fill`, `toString` and `clone` are not modelled. They are container and rendering glue.
- `LinearCurve2D.edges()`, `firstPoint()`, `lastPoint()` and `LinearRing2D.lastEdge()` are not part of this model.
  - `Intersect` receives the two edge lists directly.
  - The end points are taken as the first and last vertex.
  - The last edge of a ring is taken as `(v[n-1], v[0])`.
- `AbstractLine2D.parallel(d)`, which the walk calls, is not part of this model. It is taken to be the `getParallel(d)` formula.
- `Point2D.equals`, used by `points.contains`, is taken as exact equality of coordinates.
- The distance test of `hasMultipleVertices` is compared on squared distances. This is equivalent for non-negative distances.
- When two parallels that should be cut do not meet, the code has no fallback: `intersection` returns null and the next segment is built from that null point. The model reports `NullPointer`.
  - In the ring initialisation the Java code fails only later, when it builds the first segment from the null point. The model reports the failure at once, with the same outcome.
- Polylines2D.Step / Polylines2D.CreateParallel: the arc branch of the walk (src/math/geom2d/polygon/Polylines2D.java:159-164, and the same code at lines 188-193) is modelled as written, so these members do not give the continuity the documentation promises (lines 62-63 and 207-208). The segment after an arc restarts at the previous segment's start, and the arc runs from the segment's end back to that start. `Chained` states this behaviour. See Findings: the corrected corner `StepIntended` is proved to keep the curve continuous.
- The exact collaborators the continuity lemmas assume (`ProjectExact`, `NormExact`) exclude edges of length zero, where the source's curve has NaN points.
- The concrete curve classes `PolyOrientedCurve2D` and `BoundaryPolyCurve2D` are both modelled by the one `PolyCurve` class.

## Findings

| source | as written | input that shows it | evidently intended | confidence | as-written member | corrected member |
|---|---|---|---|---|---|---|
| src/math/geom2d/line/StraightLine2D.java:284-291 | `d = getDistance(po)` measures the distance of the projected centre `po`, which is always 0, so every line is returned unchanged | the x-axis and an inversion centre at (0, 5): the code returns the axis, but the image is a circle | `d` is the distance from the centre itself to the line, and the line is its own image only when the centre is within ACCURACY of it | not executed | StraightLine2D.InvertAsWrittenAlwaysSameLine | StraightLine2D.Invert |
| src/math/geom2d/polygon/Polylines2D.java:159-164 | when a corner emits an arc, `p1` is not advanced: the arc runs from the segment's end `p2` back to `p1`, and the next segment starts again at `p1`, off the arc's circle; the same code is at lines 188-193 | vertices (0,0), (10,0), (10,10) and d = 1: the pieces are the segment (0,-1)-(10,-1), an arc around (10,0), and the segment (0,-1)-(11,10), whose start is at squared distance 101 from the arc's centre instead of 1 | the arc ends at the foot of v1 on the next parallel, which becomes `p1`, as the ring initialisation does at lines 117-125; the curve is then continuous, as the documentation at lines 62-63 and 207-208 says | not executed | Polylines2D.OpenParallelGap | Polylines2D.OpenParallelIntendedContinuous |
