/** Model of the polyline utilities: the duplicate-vertex test, the
    parallel-curve walk over the vertices of an open polyline or of a closed
    ring, and the collector of intersection points between two edge lists.

    The geometric collaborators that are not part of this model (the angle
    between two lines, the intersection of two lines, the orthogonal
    projection, the angular position of a point on a circle, the norm of a
    vector) are fields of arrow type of a `Geometry` value: every result
    below holds whatever they compute. */
module Polylines2D {
  import opened Geom2D
  import opened StraightLine2D

  // ---------------------------------------------------------------------
  // Data

  /** LinearCurve2D: an open polyline (Polyline2D) or a closed ring
      (LinearRing2D), each given by its vertex list. */
  datatype LinearCurve = Polyline(vertices: seq<Point>) | LinearRing(vertices: seq<Point>)

  /** LineSegment2D, by its two end points. */
  datatype LineSegment = LineSegment(p1: Point, p2: Point)

  /** The smooth pieces a parallel curve is made of: a line segment, or a
      circle arc given by its centre, radius, start and end positions on the
      circle, and its orientation (CircleArc2D). */
  datatype Piece =
    | SegmentPiece(start: Point, end: Point)
    | ArcPiece(center: Point, radius: real, t0: real, t1: real, direct: bool)

  /** The collaborators of the parallel-curve walk.
      - norm(dx, dy): the Euclidean norm (Math.hypot / Math.sqrt) of the
        direction of an edge, taken positive. An edge of length zero is
        accepted, but its result differs from Java's: there the norm is 0
        and the parallel's origin is NaN, here the norm is some positive
        value and the parallel is the edge's own zero-direction line;
      - angle(l0, l): Angle2D.angle, the turn from l0 to l;
      - intersection(l, l0): the intersection of two straight lines, None
        for parallel lines (Java null);
      - project(l, p): the orthogonal projection of p on l;
      - position(c, r, p): the position of p on the circle of centre c and
        radius r (Circle2D.position). */
  datatype Geometry = Geometry(
    norm: (real, real) -> PosReal,
    angle: (Line, Line) -> real,
    intersection: (Line, Line) -> Option<Point>,
    project: (Line, Point) -> Point,
    position: (Point, real, Point) -> real)

  /** The growing result curve (PolyCurve2D and its subclasses
      PolyOrientedCurve2D and BoundaryPolyCurve2D): the list of pieces and
      the closed flag. */
  class PolyCurve {
    var pieces: seq<Piece>
    var closed: bool

    constructor ()
      ensures pieces == [] && !closed
    {
      pieces := [];
      closed := false;
    }

    method SetClosed(b: bool)
      modifies this
      ensures closed == b && pieces == old(pieces)
    {
      closed := b;
    }

    method Add(p: Piece)
      modifies this
      ensures pieces == old(pieces) + [p] && closed == old(closed)
    {
      pieces := pieces + [p];
    }
  }

  function Last<T>(s: seq<T>): T
    requires |s| > 0
  {
    s[|s| - 1]
  }

  // ---------------------------------------------------------------------
  // Duplicate vertices

  /** hasMultipleVertices(polyline, closed). `adjacentMultiple` stands for
      PointSets2D.hasAdjacentMultipleVertices. The end points are the first
      and last vertices; with no vertex at all, firstPoint() is null and the
      distance call fails. The distance test |p1 - p2| < ACCURACY is
      compared on squares. */
  function HasMultipleVertices(adjacentMultiple: seq<Point> -> bool, polyline: LinearCurve, closed: bool): (r: Result<bool>)
    ensures r.Failure? <==> closed && !adjacentMultiple(polyline.vertices) && |polyline.vertices| == 0
    ensures r.Failure? ==> r.error == NullPointer
    ensures r.Success? ==>
      (r.value <==> adjacentMultiple(polyline.vertices)
                    || (closed && PointSqDistance(polyline.vertices[0], Last(polyline.vertices)) < ACCURACY * ACCURACY))
  {
    var vs := polyline.vertices;
    if adjacentMultiple(vs) then Success(true)
    else if closed then
      if |vs| == 0 then Failure(NullPointer)
      else Success(PointSqDistance(vs[0], Last(vs)) < ACCURACY * ACCURACY)
    else Success(false)
  }

  /** hasMultipleVertices(polyline): the extremities are not compared, so the
      test never fails and is the adjacent-vertex test alone. */
  function HasMultipleVerticesOpen(adjacentMultiple: seq<Point> -> bool, polyline: LinearCurve): (r: Result<bool>)
    ensures r == Success(adjacentMultiple(polyline.vertices))
  {
    HasMultipleVertices(adjacentMultiple, polyline, false)
  }

  /** Comparing the extremities can only add duplicates: a duplicate found
      without them is found with them. */
  lemma MultipleVerticesClosedWeaker(adjacentMultiple: seq<Point> -> bool, polyline: LinearCurve)
    requires HasMultipleVertices(adjacentMultiple, polyline, false) == Success(true)
    ensures HasMultipleVertices(adjacentMultiple, polyline, true) == Success(true)
  {
  }

  // ---------------------------------------------------------------------
  // The parallel-curve walk: specification

  /** new StraightLine2D(v1, v2).parallel(d): the parallel at distance d of
      the line through the edge (v1, v2). */
  function EdgeParallel(g: Geometry, v1: Point, v2: Point, d: real): Line {
    Parallel(Through(v1, v2), d, g.norm(v2.x - v1.x, v2.y - v1.y))
  }

  /** The branch test `Angle2D.angle(line0, line) > Math.PI ^ d < 0`: true
      when the next parallel line turns towards the offset side, where the
      previous segment is truncated at the corner. */
  predicate TurnTest(angle: real, d: real) {
    (angle > PI) != (d < 0.0)
  }

  /** addCircleArc(result, v1, p1, p2, d): the arc of the circle of centre
      v1 and radius |d| from the position of p1 to the position of p2,
      direct when d > 0. */
  function ArcAt(g: Geometry, v1: Point, p1: Point, p2: Point, d: real): (r: Piece)
    ensures r.ArcPiece? && r.center == v1 && r.radius == Abs(d) && r.radius >= 0.0
    ensures r.direct <==> d > 0.0
  {
    var radius := Abs(d);
    ArcPiece(v1, radius, g.position(v1, radius, p1), g.position(v1, radius, p2), d > 0.0)
  }

  /** The rolling state of the walk: the start p1 of the pending segment, its
      provisional end p2, the parallel line0 of the previous edge, and the
      pieces emitted so far. */
  datatype WalkState = WalkState(p1: Point, p2: Point, line0: Line, pieces: seq<Piece>)

  /** One corner: the vertex v1 between the previous edge (whose parallel is
      line0) and the edge (v1, v2). Either the pending segment is truncated
      at the intersection of the two parallels (which must exist, or the
      null point is dereferenced), or it is emitted whole followed by an arc
      from its end back to its start; p1 is not advanced in that case. */
  function Step(g: Geometry, d: real, s: WalkState, v1: Point, v2: Point): Result<WalkState> {
    var line := EdgeParallel(g, v1, v2, d);
    if TurnTest(g.angle(s.line0, line), d) then
      match g.intersection(line, s.line0)
      case None => Failure(NullPointer)
      case Some(q) =>
        Success(WalkState(q, g.project(line, v2), line, s.pieces + [SegmentPiece(s.p1, q)]))
    else
      Success(WalkState(s.p1, g.project(line, v2), line,
                        s.pieces + [SegmentPiece(s.p1, s.p2), ArcAt(g, v1, s.p2, s.p1, d)]))
  }

  /** The main loop: the corners at vertices 1 .. k-1, each between edges
      (vs[j-1], vs[j]) and (vs[j], vs[j+1]), starting from `st`. */
  function Walk(g: Geometry, d: real, vs: seq<Point>, st: WalkState, k: nat): Result<WalkState>
    requires 1 <= k < |vs|
  {
    if k == 1 then Success(st)
    else
      match Walk(g, d, vs, st, k - 1)
      case Failure(e) => Failure(e)
      case Success(s) => Step(g, d, s, vs[k - 1], vs[k])
  }

  /** Initialisation for an open polyline: the parallel of the first edge,
      with the projections of its two vertices. */
  function OpenStart(g: Geometry, d: real, vs: seq<Point>): WalkState
    requires |vs| >= 2
  {
    var line0 := EdgeParallel(g, vs[0], vs[1], d);
    WalkState(g.project(line0, vs[0]), g.project(line0, vs[1]), line0, [])
  }

  /** The pieces of the parallel of an open polyline: the walk, then the
      last pending segment. */
  function OpenParallel(g: Geometry, d: real, vs: seq<Point>): Result<seq<Piece>>
    requires |vs| >= 2
  {
    match Walk(g, d, vs, OpenStart(g, d, vs), |vs| - 1)
    case Failure(e) => Failure(e)
    case Success(s) => Success(s.pieces + [SegmentPiece(s.p1, s.p2)])
  }

  /** The initialisation of a ring: the closing point p0 and the walk state. */
  datatype RingInit = RingInit(p0: Point, st: WalkState)

  /** Initialisation for a ring: the corner at vertex 0, between the last
      edge (vs[n-1], vs[0]) and the first edge. p0 is the projection of
      vs[0] on the parallel of the last edge; on truncation it and p1 both
      become the intersection of the two parallels, otherwise an arc from
      p0 to p1 is emitted. */
  function RingStart(g: Geometry, d: real, vs: seq<Point>): Result<RingInit>
    requires |vs| >= 2
  {
    var n := |vs|;
    var lastEdge := Through(vs[n - 1], vs[0]);
    var line0 := StraightLine2D.CreateParallel(lastEdge, d, g.norm(lastEdge.dx, lastEdge.dy));
    var p0 := g.project(line0, vs[0]);
    var line := EdgeParallel(g, vs[0], vs[1], d);
    var p1 := g.project(line, vs[0]);
    var p2 := g.project(line, vs[1]);
    if TurnTest(g.angle(line0, line), d) then
      match g.intersection(line, line0)
      case None => Failure(NullPointer)
      case Some(q) => Success(RingInit(q, WalkState(q, p2, line, [])))
    else
      Success(RingInit(p0, WalkState(p1, p2, line, [ArcAt(g, vs[0], p0, p1, d)])))
  }

  /** The pieces of the parallel of a ring: the initial corner, the walk,
      the corner at the last vertex (between the edges (vs[n-2], vs[n-1])
      and (vs[n-1], vs[0])), and the segment that closes the curve at p0. */
  function RingParallel(g: Geometry, d: real, vs: seq<Point>): Result<seq<Piece>>
    requires |vs| >= 2
  {
    match RingStart(g, d, vs)
    case Failure(e) => Failure(e)
    case Success(ri) =>
      match Walk(g, d, vs, ri.st, |vs| - 1)
      case Failure(e) => Failure(e)
      case Success(s) =>
        match Step(g, d, s, vs[|vs| - 1], vs[0])
        case Failure(e) => Failure(e)
        case Success(t) => Success(t.pieces + [SegmentPiece(t.p1, ri.p0)])
  }

  /** The pieces createParallel(polyline, d) emits: none for fewer than two
      vertices, otherwise the open or the ring walk. */
  function ParallelPieces(g: Geometry, polyline: LinearCurve, d: real): Result<seq<Piece>> {
    var vs := polyline.vertices;
    if |vs| < 2 then Success([])
    else if polyline.Polyline? then OpenParallel(g, d, vs)
    else RingParallel(g, d, vs)
  }

  // ---------------------------------------------------------------------
  // The parallel-curve walk: imperative form

  /** addCircleArc: appends exactly one arc, the one ArcAt describes. */
  method AddCircleArc(g: Geometry, result: PolyCurve, v1: Point, p1: Point, p2: Point, d: real)
    modifies result
    ensures result.pieces == old(result.pieces) + [ArcAt(g, v1, p1, p2, d)]
    ensures result.closed == old(result.closed)
  {
    var radius := Abs(d);
    var t0 := g.position(v1, radius, p1);
    var t1 := g.position(v1, radius, p2);
    result.Add(ArcPiece(v1, radius, t0, t1, d > 0.0));
  }

  /** The body of the main loop, at the corner v1 of the edge (v1, v2). On
      success the new rolling state and the pieces of `result` are those of
      Step; `ok` is false exactly when Step fails. */
  method Corner(g: Geometry, d: real, result: PolyCurve, v1: Point, v2: Point,
                p1: Point, p2: Point, line0: Line)
    returns (ok: bool, q1: Point, q2: Point, line: Line)
    modifies result
    ensures result.closed == old(result.closed)
    ensures ok == Step(g, d, WalkState(p1, p2, line0, old(result.pieces)), v1, v2).Success?
    ensures ok ==> Step(g, d, WalkState(p1, p2, line0, old(result.pieces)), v1, v2).value
                   == WalkState(q1, q2, line, result.pieces)
  {
    line := EdgeParallel(g, v1, v2, d);
    q1, q2 := p1, p2;
    if TurnTest(g.angle(line0, line), d) {
      var q := g.intersection(line, line0);
      if q.None? {
        ok := false;
        return;
      }
      result.Add(SegmentPiece(p1, q.value));
      q1 := q.value;
    } else {
      result.Add(SegmentPiece(p1, p2));
      AddCircleArc(g, result, v1, p2, p1, d);
    }
    q2 := g.project(line, v2);
    ok := true;
  }

  /** The main loop over the vertices vs[1] .. vs[n-2]. */
  method WalkEdges(g: Geometry, d: real, vs: seq<Point>, result: PolyCurve,
                   p1: Point, p2: Point, line0: Line)
    returns (ok: bool, q1: Point, q2: Point, l0: Line)
    requires |vs| >= 2
    modifies result
    ensures result.closed == old(result.closed)
    ensures ok == Walk(g, d, vs, WalkState(p1, p2, line0, old(result.pieces)), |vs| - 1).Success?
    ensures ok ==> Walk(g, d, vs, WalkState(p1, p2, line0, old(result.pieces)), |vs| - 1).value
                   == WalkState(q1, q2, l0, result.pieces)
  {
    ghost var st := WalkState(p1, p2, line0, result.pieces);
    q1, q2, l0 := p1, p2, line0;
    var k := 1;
    while k < |vs| - 1
      invariant 1 <= k <= |vs| - 1
      invariant result.closed == old(result.closed)
      invariant Walk(g, d, vs, st, k) == Success(WalkState(q1, q2, l0, result.pieces))
    {
      WalkNext(g, d, vs, st, k, WalkState(q1, q2, l0, result.pieces));
      ok, q1, q2, l0 := Corner(g, d, result, vs[k], vs[k + 1], q1, q2, l0);
      if !ok {
        WalkFailureSticky(g, d, vs, st, k + 1, |vs| - 1);
        return;
      }
      k := k + 1;
    }
    ok := true;
  }

  /** One more corner of the main loop. */
  lemma WalkNext(g: Geometry, d: real, vs: seq<Point>, st: WalkState, k: nat, s: WalkState)
    requires 1 <= k < |vs| - 1 && Walk(g, d, vs, st, k) == Success(s)
    ensures Walk(g, d, vs, st, k + 1) == Step(g, d, s, vs[k], vs[k + 1])
  {
  }

  /** The ring branch shared by createParallel and createClosedParallel:
      initialisation at vertex 0, the main loop, the corner at the last
      vertex and the closing segment. */
  method RingWalk(g: Geometry, d: real, vs: seq<Point>, result: PolyCurve) returns (ok: bool)
    requires |vs| >= 2 && result.pieces == []
    modifies result
    ensures result.closed == old(result.closed)
    ensures ok == RingParallel(g, d, vs).Success?
    ensures ok ==> result.pieces == RingParallel(g, d, vs).value
  {
    var n := |vs|;
    // parallel to the last edge
    var lastEdge := Through(vs[n - 1], vs[0]);
    var line0 := StraightLine2D.CreateParallel(lastEdge, d, g.norm(lastEdge.dx, lastEdge.dy));
    var p0 := g.project(line0, vs[0]);
    // the first edge
    var line := EdgeParallel(g, vs[0], vs[1], d);
    var p1 := g.project(line, vs[0]);
    if TurnTest(g.angle(line0, line), d) {
      var q := g.intersection(line, line0);
      if q.None? {
        return false;
      }
      p1 := q.value;
      p0 := p1;
    } else {
      AddCircleArc(g, result, vs[0], p0, p1, d);
      assert result.pieces == [ArcAt(g, vs[0], p0, p1, d)];
    }
    var p2 := g.project(line, vs[1]);
    line0 := line;
    assert RingStart(g, d, vs) == Success(RingInit(p0, WalkState(p1, p2, line0, result.pieces)));

    ok, p1, p2, line0 := WalkEdges(g, d, vs, result, p1, p2, line0);
    if !ok {
      return;
    }
    ok, p1, p2, line0 := Corner(g, d, result, vs[n - 1], vs[0], p1, p2, line0);
    if !ok {
      return;
    }
    result.Add(SegmentPiece(p1, p0));
  }

  /** createParallel(polyline, d): a fresh curve, closed exactly for a ring,
      holding the pieces ParallelPieces describes; it fails exactly when the
      walk dereferences a null intersection. */
  method CreateParallel(g: Geometry, polyline: LinearCurve, d: real) returns (r: Result<PolyCurve>)
    ensures r.Success? <==> ParallelPieces(g, polyline, d).Success?
    ensures r.Failure? ==> r.error == NullPointer
    ensures r.Success? ==> fresh(r.value) && r.value.closed == polyline.LinearRing?
                           && r.value.pieces == ParallelPieces(g, polyline, d).value
  {
    var result := new PolyCurve();
    result.SetClosed(polyline.LinearRing?);
    var vs := polyline.vertices;
    if |vs| < 2 {
      return Success(result);
    }
    if polyline.LinearRing? {
      var ok := RingWalk(g, d, vs, result);
      if !ok {
        RingFailure(g, d, vs);
        return Failure(NullPointer);
      }
    } else {
      var line0 := EdgeParallel(g, vs[0], vs[1], d);
      var p1 := g.project(line0, vs[0]);
      var p2 := g.project(line0, vs[1]);
      var ok;
      ok, p1, p2, line0 := WalkEdges(g, d, vs, result, p1, p2, line0);
      if !ok {
        OpenFailure(g, d, vs);
        return Failure(NullPointer);
      }
      result.Add(SegmentPiece(p1, p2));
    }
    return Success(result);
  }

  /** createClosedParallel(ring, d): a fresh closed curve holding the same
      pieces as createParallel on the same ring. */
  method CreateClosedParallel(g: Geometry, ring: seq<Point>, d: real) returns (r: Result<PolyCurve>)
    ensures r.Success? <==> ParallelPieces(g, LinearRing(ring), d).Success?
    ensures r.Failure? ==> r.error == NullPointer
    ensures r.Success? ==> fresh(r.value) && r.value.closed
                           && r.value.pieces == ParallelPieces(g, LinearRing(ring), d).value
  {
    var result := new PolyCurve();
    result.SetClosed(true);
    if |ring| < 2 {
      return Success(result);
    }
    var ok := RingWalk(g, d, ring, result);
    if !ok {
      RingFailure(g, d, ring);
      return Failure(NullPointer);
    }
    return Success(result);
  }

  // ---------------------------------------------------------------------
  // The parallel-curve walk: properties

  /** A failed walk stays failed. */
  lemma {:induction false} WalkFailureSticky(g: Geometry, d: real, vs: seq<Point>, st: WalkState, k: nat, m: nat)
    requires 1 <= k <= m < |vs|
    requires Walk(g, d, vs, st, k).Failure?
    ensures Walk(g, d, vs, st, m) == Walk(g, d, vs, st, k)
    decreases m - k
  {
    if m > k {
      WalkFailureSticky(g, d, vs, st, k, m - 1);
    }
  }

  /** Every failure of the walk is a dereferenced null intersection. */
  lemma {:induction false} WalkFailureKind(g: Geometry, d: real, vs: seq<Point>, st: WalkState, k: nat)
    requires 1 <= k < |vs|
    ensures Walk(g, d, vs, st, k).Failure? ==> Walk(g, d, vs, st, k).error == NullPointer
  {
    if k > 1 {
      WalkFailureKind(g, d, vs, st, k - 1);
    }
  }

  lemma OpenFailure(g: Geometry, d: real, vs: seq<Point>)
    requires |vs| >= 2
    ensures OpenParallel(g, d, vs).Failure? ==> OpenParallel(g, d, vs).error == NullPointer
  {
    WalkFailureKind(g, d, vs, OpenStart(g, d, vs), |vs| - 1);
  }

  lemma RingFailure(g: Geometry, d: real, vs: seq<Point>)
    requires |vs| >= 2
    ensures RingParallel(g, d, vs).Failure? ==> RingParallel(g, d, vs).error == NullPointer
  {
    if RingStart(g, d, vs).Success? {
      WalkFailureKind(g, d, vs, RingStart(g, d, vs).value.st, |vs| - 1);
    }
  }

  // ---------------------------------------------------------------------
  // Counting, branch choice and chaining

  /** The number of line segments among the pieces. */
  function Segments(ps: seq<Piece>): nat {
    if |ps| == 0 then 0
    else Segments(ps[..|ps| - 1]) + (if Last(ps).SegmentPiece? then 1 else 0)
  }

  /** The number of circle arcs among the pieces. */
  function Arcs(ps: seq<Piece>): nat {
    if |ps| == 0 then 0
    else Arcs(ps[..|ps| - 1]) + (if Last(ps).ArcPiece? then 1 else 0)
  }

  lemma CountsSnoc(ps: seq<Piece>, x: Piece)
    ensures Segments(ps + [x]) == Segments(ps) + (if x.SegmentPiece? then 1 else 0)
    ensures Arcs(ps + [x]) == Arcs(ps) + (if x.ArcPiece? then 1 else 0)
  {
    assert (ps + [x])[..|ps|] == ps;
  }

  /** Every piece is a segment or an arc. */
  lemma {:induction false} PiecesAreSegmentsOrArcs(ps: seq<Piece>)
    ensures |ps| == Segments(ps) + Arcs(ps)
  {
    if |ps| > 0 {
      PiecesAreSegmentsOrArcs(ps[..|ps| - 1]);
    }
  }

  /** The centres of the circle arcs among the pieces, in order. */
  function ArcCentres(ps: seq<Piece>): seq<Point> {
    if |ps| == 0 then []
    else ArcCentres(ps[..|ps| - 1]) + (if Last(ps).ArcPiece? then [Last(ps).center] else [])
  }

  lemma ArcCentresSnoc(ps: seq<Piece>, x: Piece)
    ensures ArcCentres(ps + [x]) == ArcCentres(ps) + (if x.ArcPiece? then [x.center] else [])
  {
    assert (ps + [x])[..|ps|] == ps;
  }

  /** The neighbours of vertex j on a ring of n vertices. */
  function Prev(n: nat, j: nat): nat
    requires j < n
  {
    if j == 0 then n - 1 else j - 1
  }

  function Next(n: nat, j: nat): nat
    requires j < n
  {
    if j == n - 1 then 0 else j + 1
  }

  /** The turn test at vertex j, between the parallels of the edge that ends
      at vs[j] and of the edge that starts there (wrapping around the
      ring). */
  predicate Truncates(g: Geometry, d: real, vs: seq<Point>, j: nat)
    requires 2 <= |vs| && j < |vs|
  {
    var n := |vs|;
    TurnTest(g.angle(EdgeParallel(g, vs[Prev(n, j)], vs[j], d), EdgeParallel(g, vs[j], vs[Next(n, j)], d)), d)
  }

  /** At vertex j, where the test truncates, the two parallels meet. */
  predicate Meets(g: Geometry, d: real, vs: seq<Point>, j: nat)
    requires 2 <= |vs| && j < |vs|
  {
    var n := |vs|;
    Truncates(g, d, vs, j) ==>
      g.intersection(EdgeParallel(g, vs[j], vs[Next(n, j)], d), EdgeParallel(g, vs[Prev(n, j)], vs[j], d)).Some?
  }

  predicate CornersMeet(g: Geometry, d: real, vs: seq<Point>, lo: nat, hi: nat)
    requires 2 <= |vs| && lo <= hi <= |vs|
  {
    forall j | lo <= j < hi :: Meets(g, d, vs, j)
  }

  /** The number of vertices in [lo, hi) where the test does not truncate,
      that is, where an arc is emitted. */
  function ArcVertices(g: Geometry, d: real, vs: seq<Point>, lo: nat, hi: nat): nat
    requires 2 <= |vs| && lo <= hi <= |vs|
    decreases hi
  {
    if hi == lo then 0
    else ArcVertices(g, d, vs, lo, hi - 1) + (if Truncates(g, d, vs, hi - 1) then 0 else 1)
  }

  lemma {:induction false} ArcVerticesSplit(g: Geometry, d: real, vs: seq<Point>, lo: nat, mid: nat, hi: nat)
    requires 2 <= |vs| && lo <= mid <= hi <= |vs|
    ensures ArcVertices(g, d, vs, lo, hi) == ArcVertices(g, d, vs, lo, mid) + ArcVertices(g, d, vs, mid, hi)
    decreases hi
  {
    if hi > mid {
      ArcVerticesSplit(g, d, vs, lo, mid, hi - 1);
    }
  }

  /** The points vs[j], lo <= j < hi, whose flag keep[j] is set, in order. */
  function Kept(vs: seq<Point>, keep: seq<bool>, lo: nat, hi: nat): seq<Point>
    requires |keep| == |vs| && lo <= hi <= |vs|
    decreases hi
  {
    if hi == lo then []
    else Kept(vs, keep, lo, hi - 1) + (if keep[hi - 1] then [vs[hi - 1]] else [])
  }

  lemma {:induction false} KeptSplit(vs: seq<Point>, keep: seq<bool>, lo: nat, mid: nat, hi: nat)
    requires |keep| == |vs| && lo <= mid <= hi <= |vs|
    ensures Kept(vs, keep, lo, hi) == Kept(vs, keep, lo, mid) + Kept(vs, keep, mid, hi)
    decreases hi
  {
    if hi > mid {
      KeptSplit(vs, keep, lo, mid, hi - 1);
      var last := if keep[hi - 1] then [vs[hi - 1]] else [];
      assert Kept(vs, keep, lo, mid) + Kept(vs, keep, mid, hi - 1) + last
          == Kept(vs, keep, lo, mid) + (Kept(vs, keep, mid, hi - 1) + last);
    }
  }

  /** For each vertex, whether the walk emits an arc around it: the test
      does not truncate there. */
  function ArcFlags(g: Geometry, d: real, vs: seq<Point>): (r: seq<bool>)
    requires 2 <= |vs|
    ensures |r| == |vs|
    ensures forall j | 0 <= j < |vs| :: r[j] == !Truncates(g, d, vs, j)
  {
    seq(|vs|, j requires 0 <= j < |vs| => !Truncates(g, d, vs, j))
  }

  /** The vertices in [lo, hi) where the test does not truncate, in order:
      the centres of the arcs the walk emits there. */
  function ArcVertexList(g: Geometry, d: real, vs: seq<Point>, lo: nat, hi: nat): seq<Point>
    requires 2 <= |vs| && lo <= hi <= |vs|
  {
    Kept(vs, ArcFlags(g, d, vs), lo, hi)
  }

  /** One more vertex adds its arc centre exactly when it does not truncate;
      the list has ArcVertices entries. */
  lemma {:induction false} ArcVertexListSnoc(g: Geometry, d: real, vs: seq<Point>, lo: nat, hi: nat)
    requires 2 <= |vs| && lo < hi <= |vs|
    ensures ArcVertexList(g, d, vs, lo, hi)
         == ArcVertexList(g, d, vs, lo, hi - 1) + (if Truncates(g, d, vs, hi - 1) then [] else [vs[hi - 1]])
  {
  }

  lemma {:induction false} ArcVertexListSize(g: Geometry, d: real, vs: seq<Point>, lo: nat, hi: nat)
    requires 2 <= |vs| && lo <= hi <= |vs|
    ensures |ArcVertexList(g, d, vs, lo, hi)| == ArcVertices(g, d, vs, lo, hi)
    decreases hi
  {
    if hi > lo {
      ArcVertexListSize(g, d, vs, lo, hi - 1);
      ArcVertexListSnoc(g, d, vs, lo, hi);
    }
  }

  /** An arc piece is centred at a vertex, has radius |d|, and is direct
      exactly when d > 0. */
  predicate ArcOk(p: Piece, vs: seq<Point>, d: real) {
    p.ArcPiece? ==> p.center in vs && p.radius == Abs(d) && (p.direct <==> d > 0.0)
  }

  predicate ArcsOk(ps: seq<Piece>, vs: seq<Point>, d: real) {
    forall p | p in ps :: ArcOk(p, vs, d)
  }

  /** How piece i follows piece i-1: a segment after a segment starts where
      it ended; an arc follows a segment, going from the position of the
      segment's end back to the position of its start; a segment after such
      an arc starts where that segment started. */
  predicate Joined(g: Geometry, ps: seq<Piece>, i: nat)
    requires 1 <= i < |ps|
  {
    (ps[i].SegmentPiece? && ps[i - 1].SegmentPiece? ==> ps[i].start == ps[i - 1].end)
    && (ps[i].ArcPiece? ==>
          ps[i - 1].SegmentPiece?
          && ps[i].t0 == g.position(ps[i].center, ps[i].radius, ps[i - 1].end)
          && ps[i].t1 == g.position(ps[i].center, ps[i].radius, ps[i - 1].start))
    && (2 <= i && ps[i].SegmentPiece? && ps[i - 1].ArcPiece? ==>
          ps[i - 2].SegmentPiece? && ps[i].start == ps[i - 2].start)
  }

  predicate Chained(g: Geometry, ps: seq<Piece>) {
    forall i | 1 <= i < |ps| :: Joined(g, ps, i)
  }

  /** A segment starting at p1 may be appended to ps and stay chained. */
  predicate Links(ps: seq<Piece>, p1: Point) {
    if |ps| == 0 then true
    else if Last(ps).SegmentPiece? then Last(ps).end == p1
    else |ps| == 1 || (ps[|ps| - 2].SegmentPiece? && ps[|ps| - 2].start == p1)
  }

  /** Appending a segment that starts at the linking point keeps the pieces
      chained, and the segment's end becomes the linking point. */
  lemma ChainSegment(g: Geometry, ps: seq<Piece>, p1: Point, q: Point)
    requires Chained(g, ps) && Links(ps, p1)
    ensures Chained(g, ps + [SegmentPiece(p1, q)])
    ensures Links(ps + [SegmentPiece(p1, q)], q)
  {
    var qs := ps + [SegmentPiece(p1, q)];
    forall i | 1 <= i < |qs|
      ensures Joined(g, qs, i)
    {
      if i < |ps| {
        assert Joined(g, ps, i);
      }
    }
  }

  /** Appending a segment and the arc back from its end to its start keeps
      the pieces chained, with the segment's start as the linking point. */
  lemma ChainSegmentArc(g: Geometry, ps: seq<Piece>, v1: Point, p1: Point, p2: Point, d: real)
    requires Chained(g, ps) && Links(ps, p1)
    ensures Chained(g, ps + [SegmentPiece(p1, p2), ArcAt(g, v1, p2, p1, d)])
    ensures Links(ps + [SegmentPiece(p1, p2), ArcAt(g, v1, p2, p1, d)], p1)
  {
    ChainSegment(g, ps, p1, p2);
    var ps1 := ps + [SegmentPiece(p1, p2)];
    var qs := ps1 + [ArcAt(g, v1, p2, p1, d)];
    assert qs == ps + [SegmentPiece(p1, p2), ArcAt(g, v1, p2, p1, d)];
    forall i | 1 <= i < |qs|
      ensures Joined(g, qs, i)
    {
      if i < |ps1| {
        assert Joined(g, ps1, i);
      }
    }
  }

  /** The branch test flips with the sign of the offset. */
  lemma TurnTestFlip(angle: real, d: real)
    requires d != 0.0
    ensures TurnTest(angle, -d) == !TurnTest(angle, d)
  {
  }

  /** One corner: it fails (on a null intersection) exactly when it
      truncates and the parallels do not meet; otherwise it moves to the
      edge (v1, v2) and appends one segment starting at p1: cut at the
      intersection, which becomes p1, or whole and followed by the arc
      around v1 from p2 back to p1. */
  lemma StepShape(g: Geometry, d: real, s: WalkState, v1: Point, v2: Point)
    ensures var line := EdgeParallel(g, v1, v2, d);
            Step(g, d, s, v1, v2).Success? <==>
              (TurnTest(g.angle(s.line0, line), d) ==> g.intersection(line, s.line0).Some?)
    ensures Step(g, d, s, v1, v2).Failure? ==> Step(g, d, s, v1, v2).error == NullPointer
    ensures Step(g, d, s, v1, v2).Success? ==>
      var line := EdgeParallel(g, v1, v2, d);
      var t := Step(g, d, s, v1, v2).value;
      && t.line0 == line && t.p2 == g.project(line, v2)
      && |t.pieces| > |s.pieces| && t.pieces[..|s.pieces|] == s.pieces
      && t.pieces[|s.pieces|].SegmentPiece? && t.pieces[|s.pieces|].start == s.p1
      && Segments(t.pieces) == Segments(s.pieces) + 1
      && Arcs(t.pieces) == Arcs(s.pieces) + (if TurnTest(g.angle(s.line0, line), d) then 0 else 1)
      && (TurnTest(g.angle(s.line0, line), d) ==>
            t.p1 == g.intersection(line, s.line0).value && t.pieces == s.pieces + [SegmentPiece(s.p1, t.p1)])
      && (!TurnTest(g.angle(s.line0, line), d) ==>
            t.p1 == s.p1 && t.pieces == s.pieces + [SegmentPiece(s.p1, s.p2), ArcAt(g, v1, s.p2, s.p1, d)])
  {
    var line := EdgeParallel(g, v1, v2, d);
    if TurnTest(g.angle(s.line0, line), d) {
      if g.intersection(line, s.line0).Some? {
        var q := g.intersection(line, s.line0).value;
        CountsSnoc(s.pieces, SegmentPiece(s.p1, q));
      }
    } else {
      var seg := SegmentPiece(s.p1, s.p2);
      var arc := ArcAt(g, v1, s.p2, s.p1, d);
      CountsSnoc(s.pieces, seg);
      CountsSnoc(s.pieces + [seg], arc);
      assert s.pieces + [seg] + [arc] == s.pieces + [seg, arc];
    }
  }

  /** The invariant of the walk: the pieces are chained, the pending
      segment links to them, and the arcs are centred at vertices with
      radius |d|. */
  predicate WalkInvariant(g: Geometry, d: real, vs: seq<Point>, s: WalkState) {
    Links(s.pieces, s.p1) && Chained(g, s.pieces) && ArcsOk(s.pieces, vs, d)
  }

  /** A corner at a vertex keeps the invariant. */
  lemma StepKeepsInvariant(g: Geometry, d: real, s: WalkState, vs: seq<Point>, v1: Point, v2: Point)
    requires v1 in vs && WalkInvariant(g, d, vs, s)
    ensures Step(g, d, s, v1, v2).Success? ==> WalkInvariant(g, d, vs, Step(g, d, s, v1, v2).value)
  {
    var line := EdgeParallel(g, v1, v2, d);
    if TurnTest(g.angle(s.line0, line), d) {
      if g.intersection(line, s.line0).Some? {
        ChainSegment(g, s.pieces, s.p1, g.intersection(line, s.line0).value);
      }
    } else {
      ChainSegmentArc(g, s.pieces, v1, s.p1, s.p2, d);
    }
  }

  /** The corner at vertex j, reached on the parallel of the edge ending
      at vs[j], succeeds exactly when the parallels meet there, and moves to
      the parallel of the edge starting at vs[j]. */
  lemma StepMeets(g: Geometry, d: real, vs: seq<Point>, s: WalkState, j: nat)
    requires 2 <= |vs| && j < |vs|
    requires s.line0 == EdgeParallel(g, vs[Prev(|vs|, j)], vs[j], d)
    ensures Step(g, d, s, vs[j], vs[Next(|vs|, j)]).Success? <==> Meets(g, d, vs, j)
    ensures Step(g, d, s, vs[j], vs[Next(|vs|, j)]).Success? ==>
      var line := EdgeParallel(g, vs[j], vs[Next(|vs|, j)], d);
      Step(g, d, s, vs[j], vs[Next(|vs|, j)]).value.line0 == line
      && Step(g, d, s, vs[j], vs[Next(|vs|, j)]).value.p2 == g.project(line, vs[Next(|vs|, j)])
  {
  }

  /** A corner adds the arc centre v1 exactly when it does not truncate. */
  lemma StepArcCentres(g: Geometry, d: real, s: WalkState, v1: Point, v2: Point)
    ensures Step(g, d, s, v1, v2).Success? ==>
      ArcCentres(Step(g, d, s, v1, v2).value.pieces)
        == ArcCentres(s.pieces) + (if TurnTest(g.angle(s.line0, EdgeParallel(g, v1, v2, d)), d) then [] else [v1])
  {
    var line := EdgeParallel(g, v1, v2, d);
    if Step(g, d, s, v1, v2).Success? {
      var t := Step(g, d, s, v1, v2).value;
      if TurnTest(g.angle(s.line0, line), d) {
        ArcCentresSnoc(s.pieces, SegmentPiece(s.p1, t.p1));
      } else {
        var seg := SegmentPiece(s.p1, s.p2);
        var arc := ArcAt(g, v1, s.p2, s.p1, d);
        ArcCentresSnoc(s.pieces, seg);
        ArcCentresSnoc(s.pieces + [seg], arc);
        assert s.pieces + [seg] + [arc] == s.pieces + [seg, arc];
      }
    }
  }

  /** The corner at vertex j, reached on the parallel of the edge ending at
      vs[j], adds the arc centre vs[j] exactly when it does not truncate. */
  lemma StepArcCentresAt(g: Geometry, d: real, vs: seq<Point>, s: WalkState, j: nat)
    requires 2 <= |vs| && j < |vs|
    requires s.line0 == EdgeParallel(g, vs[Prev(|vs|, j)], vs[j], d)
    ensures Step(g, d, s, vs[j], vs[Next(|vs|, j)]).Success? ==>
      ArcCentres(Step(g, d, s, vs[j], vs[Next(|vs|, j)]).value.pieces)
        == ArcCentres(s.pieces) + (if Truncates(g, d, vs, j) then [] else [vs[j]])
  {
    StepArcCentres(g, d, s, vs[j], vs[Next(|vs|, j)]);
  }

  /** The main loop from a state on the first edge: it succeeds exactly when
      the parallels meet at every truncating vertex among 1 .. k-1, and then
      ends on the edge (vs[k-1], vs[k]). */
  lemma {:induction false} WalkShape(g: Geometry, d: real, vs: seq<Point>, st: WalkState, k: nat)
    requires 1 <= k < |vs|
    requires st.line0 == EdgeParallel(g, vs[0], vs[1], d) && st.p2 == g.project(st.line0, vs[1])
    ensures Walk(g, d, vs, st, k).Success? <==> CornersMeet(g, d, vs, 1, k)
    ensures Walk(g, d, vs, st, k).Success? ==>
      Walk(g, d, vs, st, k).value.line0 == EdgeParallel(g, vs[k - 1], vs[k], d)
      && Walk(g, d, vs, st, k).value.p2 == g.project(EdgeParallel(g, vs[k - 1], vs[k], d), vs[k])
  {
    if k > 1 {
      WalkShape(g, d, vs, st, k - 1);
      var n := |vs|;
      assert Prev(n, k - 1) == k - 2 && Next(n, k - 1) == k;
      assert CornersMeet(g, d, vs, 1, k) <==> CornersMeet(g, d, vs, 1, k - 1) && Meets(g, d, vs, k - 1);
      if Walk(g, d, vs, st, k - 1).Success? {
        StepMeets(g, d, vs, Walk(g, d, vs, st, k - 1).value, k - 1);
      }
    }
  }

  /** The loop ends on the last edge it visited (the second half of
      WalkShape, without its condition for success). */
  lemma {:induction false} WalkEndsOnEdge(g: Geometry, d: real, vs: seq<Point>, st: WalkState, k: nat)
    requires 1 <= k < |vs|
    requires st.line0 == EdgeParallel(g, vs[0], vs[1], d) && st.p2 == g.project(st.line0, vs[1])
    ensures Walk(g, d, vs, st, k).Success? ==>
      Walk(g, d, vs, st, k).value.line0 == EdgeParallel(g, vs[k - 1], vs[k], d)
      && Walk(g, d, vs, st, k).value.p2 == g.project(EdgeParallel(g, vs[k - 1], vs[k], d), vs[k])
  {
    if k > 1 {
      WalkEndsOnEdge(g, d, vs, st, k - 1);
      var n := |vs|;
      assert Prev(n, k - 1) == k - 2 && Next(n, k - 1) == k;
      if Walk(g, d, vs, st, k - 1).Success? {
        StepMeets(g, d, vs, Walk(g, d, vs, st, k - 1).value, k - 1);
      }
    }
  }

  /** The loop only appends: it keeps the pieces it started with, and the
      first piece it emits is a segment starting at the initial p1; with no
      corner to visit it changes nothing. */
  lemma {:induction false} WalkPrefix(g: Geometry, d: real, vs: seq<Point>, st: WalkState, k: nat)
    requires 1 <= k < |vs|
    ensures Walk(g, d, vs, st, k).Success? ==>
      var s := Walk(g, d, vs, st, k).value;
      && |s.pieces| >= |st.pieces| && s.pieces[..|st.pieces|] == st.pieces
      && (k >= 2 ==> |s.pieces| > |st.pieces| && s.pieces[|st.pieces|].SegmentPiece?
                     && s.pieces[|st.pieces|].start == st.p1)
      && (k == 1 ==> s == st)
  {
    if k > 1 && Walk(g, d, vs, st, k).Success? {
      WalkPrefix(g, d, vs, st, k - 1);
      var s := Walk(g, d, vs, st, k - 1).value;
      StepShape(g, d, s, vs[k - 1], vs[k]);
      var t := Walk(g, d, vs, st, k).value;
      assert t == Step(g, d, s, vs[k - 1], vs[k]).value;
      assert t.pieces[..|st.pieces|] == s.pieces[..|s.pieces|][..|st.pieces|];
      if k - 1 >= 2 {
        assert t.pieces[|st.pieces|] == s.pieces[|st.pieces|];
      }
    }
  }

  /** The loop emits one segment per corner visited and one arc per corner
      where the test does not truncate. */
  lemma {:induction false} WalkCounts(g: Geometry, d: real, vs: seq<Point>, st: WalkState, k: nat)
    requires 1 <= k < |vs|
    requires st.line0 == EdgeParallel(g, vs[0], vs[1], d) && st.p2 == g.project(st.line0, vs[1])
    ensures Walk(g, d, vs, st, k).Success? ==>
      var s := Walk(g, d, vs, st, k).value;
      && Segments(s.pieces) == Segments(st.pieces) + (k - 1)
      && Arcs(s.pieces) == Arcs(st.pieces) + ArcVertices(g, d, vs, 1, k)
  {
    if k > 1 && Walk(g, d, vs, st, k).Success? {
      WalkCounts(g, d, vs, st, k - 1);
      WalkShape(g, d, vs, st, k - 1);
      var n := |vs|;
      assert Prev(n, k - 1) == k - 2 && Next(n, k - 1) == k;
      var s := Walk(g, d, vs, st, k - 1).value;
      StepShape(g, d, s, vs[k - 1], vs[k]);
      assert Walk(g, d, vs, st, k).value == Step(g, d, s, vs[k - 1], vs[k]).value;
    }
  }

  /** The loop emits its arcs around the non-truncating vertices among
      1 .. k-1, in order. */
  lemma {:induction false} WalkArcCentres(g: Geometry, d: real, vs: seq<Point>, st: WalkState, k: nat)
    requires 1 <= k < |vs|
    requires st.line0 == EdgeParallel(g, vs[0], vs[1], d) && st.p2 == g.project(st.line0, vs[1])
    ensures Walk(g, d, vs, st, k).Success? ==>
      ArcCentres(Walk(g, d, vs, st, k).value.pieces) == ArcCentres(st.pieces) + ArcVertexList(g, d, vs, 1, k)
  {
    if k > 1 && Walk(g, d, vs, st, k).Success? {
      WalkArcCentres(g, d, vs, st, k - 1);
      WalkEndsOnEdge(g, d, vs, st, k - 1);
      var n := |vs|;
      assert Prev(n, k - 1) == k - 2 && Next(n, k - 1) == k;
      var s := Walk(g, d, vs, st, k - 1).value;
      StepArcCentres(g, d, s, vs[k - 1], vs[k]);
      ArcVertexListSnoc(g, d, vs, 1, k);
      assert Walk(g, d, vs, st, k).value == Step(g, d, s, vs[k - 1], vs[k]).value;
    }
  }

  /** A successful walk keeps the invariant. */
  lemma {:induction false} WalkKeepsInvariant(g: Geometry, d: real, vs: seq<Point>, st: WalkState, k: nat)
    requires 1 <= k < |vs|
    requires WalkInvariant(g, d, vs, st)
    ensures Walk(g, d, vs, st, k).Success? ==> WalkInvariant(g, d, vs, Walk(g, d, vs, st, k).value)
  {
    if k > 1 && Walk(g, d, vs, st, k - 1).Success? {
      WalkKeepsInvariant(g, d, vs, st, k - 1);
      StepKeepsInvariant(g, d, Walk(g, d, vs, st, k - 1).value, vs, vs[k - 1], vs[k]);
    }
  }

  /** The parallel of an open polyline with n >= 2 vertices fails (on a
      null intersection) exactly when two parallels that should be cut do
      not meet at an interior vertex. */
  lemma OpenParallelOutcome(g: Geometry, d: real, vs: seq<Point>)
    requires |vs| >= 2
    ensures ParallelPieces(g, Polyline(vs), d).Success? <==> CornersMeet(g, d, vs, 1, |vs| - 1)
    ensures ParallelPieces(g, Polyline(vs), d).Failure? ==> ParallelPieces(g, Polyline(vs), d).error == NullPointer
  {
    assert ParallelPieces(g, Polyline(vs), d) == OpenParallel(g, d, vs);
    OpenFailure(g, d, vs);
    WalkShape(g, d, vs, OpenStart(g, d, vs), |vs| - 1);
  }

  /** A successful parallel of an open polyline with n vertices has n-1
      segments and one arc per interior vertex where the test does not
      truncate. */
  lemma OpenParallelCounts(g: Geometry, d: real, vs: seq<Point>)
    requires |vs| >= 2
    ensures ParallelPieces(g, Polyline(vs), d).Success? ==>
      var ps := ParallelPieces(g, Polyline(vs), d).value;
      && Segments(ps) == |vs| - 1 && Arcs(ps) == ArcVertices(g, d, vs, 1, |vs| - 1)
      && |ps| == Segments(ps) + Arcs(ps)
  {
    var n := |vs|;
    var st := OpenStart(g, d, vs);
    assert ParallelPieces(g, Polyline(vs), d) == OpenParallel(g, d, vs);
    if Walk(g, d, vs, st, n - 1).Success? {
      var s := Walk(g, d, vs, st, n - 1).value;
      assert Segments(s.pieces) == n - 2 && Arcs(s.pieces) == ArcVertices(g, d, vs, 1, n - 1) by {
        WalkCounts(g, d, vs, st, n - 1);
        assert st.pieces == [];
      }
      var ps := s.pieces + [SegmentPiece(s.p1, s.p2)];
      assert OpenParallel(g, d, vs).value == ps;
      assert Segments(ps) == n - 1 && Arcs(ps) == ArcVertices(g, d, vs, 1, n - 1) by {
        CountsSnoc(s.pieces, SegmentPiece(s.p1, s.p2));
      }
      assert |ps| == Segments(ps) + Arcs(ps) by {
        PiecesAreSegmentsOrArcs(ps);
      }
    }
  }

  /** The arcs of a successful parallel of an open polyline go around the
      interior vertices where the test does not truncate, one each, in
      order. */
  lemma OpenParallelArcCentres(g: Geometry, d: real, vs: seq<Point>)
    requires |vs| >= 2
    ensures ParallelPieces(g, Polyline(vs), d).Success? ==>
      ArcCentres(ParallelPieces(g, Polyline(vs), d).value) == ArcVertexList(g, d, vs, 1, |vs| - 1)
  {
    var n := |vs|;
    var st := OpenStart(g, d, vs);
    assert ParallelPieces(g, Polyline(vs), d) == OpenParallel(g, d, vs);
    OpenWalkArcCentres(g, d, vs);
    if Walk(g, d, vs, st, n - 1).Success? {
      var s := Walk(g, d, vs, st, n - 1).value;
      ArcCentresSnoc(s.pieces, SegmentPiece(s.p1, s.p2));
    }
  }

  /** The loop of an open polyline emits its arcs around the interior
      vertices where the test does not truncate, in order. */
  lemma OpenWalkArcCentres(g: Geometry, d: real, vs: seq<Point>)
    requires |vs| >= 2
    ensures Walk(g, d, vs, OpenStart(g, d, vs), |vs| - 1).Success? ==>
      ArcCentres(Walk(g, d, vs, OpenStart(g, d, vs), |vs| - 1).value.pieces) == ArcVertexList(g, d, vs, 1, |vs| - 1)
  {
    var st := OpenStart(g, d, vs);
    WalkArcCentres(g, d, vs, st, |vs| - 1);
    assert st.pieces == [];
  }

  /** A successful parallel of an open polyline has its arcs centred at
      vertices with radius |d|, its pieces chained, and runs from the
      projection of the first vertex on the first parallel to the
      projection of the last vertex on the last parallel. */
  lemma OpenParallelFacts(g: Geometry, d: real, vs: seq<Point>)
    requires |vs| >= 2
    ensures ParallelPieces(g, Polyline(vs), d).Success? ==>
      var ps := ParallelPieces(g, Polyline(vs), d).value;
      var n := |vs|;
      && ArcsOk(ps, vs, d) && Chained(g, ps)
      && ps[0].SegmentPiece? && ps[0].start == g.project(EdgeParallel(g, vs[0], vs[1], d), vs[0])
      && Last(ps).SegmentPiece? && Last(ps).end == g.project(EdgeParallel(g, vs[n - 2], vs[n - 1], d), vs[n - 1])
  {
    var n := |vs|;
    var st := OpenStart(g, d, vs);
    assert ParallelPieces(g, Polyline(vs), d) == OpenParallel(g, d, vs);
    if Walk(g, d, vs, st, n - 1).Success? {
      WalkShape(g, d, vs, st, n - 1);
      WalkPrefix(g, d, vs, st, n - 1);
      WalkKeepsInvariant(g, d, vs, st, n - 1);
      var s := Walk(g, d, vs, st, n - 1).value;
      var ps := s.pieces + [SegmentPiece(s.p1, s.p2)];
      assert OpenParallel(g, d, vs).value == ps;
      ChainSegment(g, s.pieces, s.p1, s.p2);
      if n - 1 >= 2 {
        assert ps[0] == s.pieces[0];
      }
    }
  }

  /** The parallel of the last edge, built by createParallel (hypot), is
      the parallel of the edge (vs[n-1], vs[0]) built by parallel (sqrt). */
  lemma LastEdgeParallel(g: Geometry, d: real, vs: seq<Point>)
    requires |vs| >= 2
    ensures var lastEdge := Through(vs[|vs| - 1], vs[0]);
            StraightLine2D.CreateParallel(lastEdge, d, g.norm(lastEdge.dx, lastEdge.dy))
            == EdgeParallel(g, vs[|vs| - 1], vs[0], d)
  {
  }

  /** The ring's initialisation at vertex 0 fails exactly when it truncates
      and the parallels of the last and first edges do not meet; otherwise
      it leaves the walk on the parallel of the first edge. */
  lemma RingStartOutcome(g: Geometry, d: real, vs: seq<Point>)
    requires |vs| >= 2
    ensures RingStart(g, d, vs).Success? <==> Meets(g, d, vs, 0)
    ensures RingStart(g, d, vs).Success? ==>
      var ri := RingStart(g, d, vs).value;
      ri.st.line0 == EdgeParallel(g, vs[0], vs[1], d) && ri.st.p2 == g.project(ri.st.line0, vs[1])
  {
    var n := |vs|;
    assert Prev(n, 0) == n - 1 && Next(n, 0) == 1;
    LastEdgeParallel(g, d, vs);
  }

  /** A successful initialisation holds either nothing, with p1 = p0
      (truncation), or the arc at vs[0] from p0 to p1. */
  lemma RingStartPieces(g: Geometry, d: real, vs: seq<Point>)
    requires |vs| >= 2
    ensures RingStart(g, d, vs).Success? ==>
      var ri := RingStart(g, d, vs).value;
      && (Truncates(g, d, vs, 0) ==> ri.st.pieces == [] && ri.st.p1 == ri.p0)
      && (!Truncates(g, d, vs, 0) ==> ri.st.pieces == [ArcAt(g, vs[0], ri.p0, ri.st.p1, d)])
      && ri.p0 == (if Truncates(g, d, vs, 0)
                   then g.intersection(EdgeParallel(g, vs[0], vs[1], d), EdgeParallel(g, vs[|vs| - 1], vs[0], d)).value
                   else g.project(EdgeParallel(g, vs[|vs| - 1], vs[0], d), vs[0]))
  {
    var n := |vs|;
    assert Prev(n, 0) == n - 1 && Next(n, 0) == 1;
    LastEdgeParallel(g, d, vs);
  }

  /** The ring's initial state satisfies the walk invariant and holds no
      segment and one arc exactly when vertex 0 does not truncate. */
  lemma RingStartFacts(g: Geometry, d: real, vs: seq<Point>)
    requires |vs| >= 2
    ensures RingStart(g, d, vs).Success? ==>
      var ri := RingStart(g, d, vs).value;
      && WalkInvariant(g, d, vs, ri.st)
      && Segments(ri.st.pieces) == 0
      && Arcs(ri.st.pieces) == (if Truncates(g, d, vs, 0) then 0 else 1)
  {
    RingStartOutcome(g, d, vs);
    RingStartPieces(g, d, vs);
    if RingStart(g, d, vs).Success? && !Truncates(g, d, vs, 0) {
      var ri := RingStart(g, d, vs).value;
      assert ri.st.pieces[..0] == [];
      CountsSnoc([], ri.st.pieces[0]);
    }
  }

  /** The ring's pieces once the initialisation, the walk and the corner at
      the last vertex have all succeeded. */
  predicate RingStages(g: Geometry, d: real, vs: seq<Point>)
    requires |vs| >= 2
  {
    RingStart(g, d, vs).Success?
    && Walk(g, d, vs, RingStart(g, d, vs).value.st, |vs| - 1).Success?
    && Step(g, d, Walk(g, d, vs, RingStart(g, d, vs).value.st, |vs| - 1).value, vs[|vs| - 1], vs[0]).Success?
  }

  /** The walk state after the corner at the last vertex. */
  function RingLast(g: Geometry, d: real, vs: seq<Point>): WalkState
    requires |vs| >= 2 && RingStages(g, d, vs)
  {
    Step(g, d, Walk(g, d, vs, RingStart(g, d, vs).value.st, |vs| - 1).value, vs[|vs| - 1], vs[0]).value
  }

  /** The parallel of a ring succeeds exactly when its three stages do, and
      then it is the last state's pieces followed by the closing segment. */
  lemma RingStagesSucceed(g: Geometry, d: real, vs: seq<Point>)
    requires |vs| >= 2
    ensures ParallelPieces(g, LinearRing(vs), d).Success? <==> RingStages(g, d, vs)
    ensures RingStages(g, d, vs) ==>
      ParallelPieces(g, LinearRing(vs), d).value
        == RingLast(g, d, vs).pieces + [SegmentPiece(RingLast(g, d, vs).p1, RingStart(g, d, vs).value.p0)]
  {
    assert ParallelPieces(g, LinearRing(vs), d) == RingParallel(g, d, vs);
  }

  /** The parallel of a ring with n >= 2 vertices fails (on a null
      intersection) exactly when two parallels that should be cut do not
      meet, at any vertex including the first and the last. */
  lemma RingParallelOutcome(g: Geometry, d: real, vs: seq<Point>)
    requires |vs| >= 2
    ensures ParallelPieces(g, LinearRing(vs), d).Success? <==> CornersMeet(g, d, vs, 0, |vs|)
    ensures ParallelPieces(g, LinearRing(vs), d).Failure? ==> ParallelPieces(g, LinearRing(vs), d).error == NullPointer
  {
    RingStagesSucceed(g, d, vs);
    RingStagesMeet(g, d, vs);
    RingFailure(g, d, vs);
  }

  /** The three stages of a ring succeed exactly when the parallels meet at
      every truncating vertex. */
  lemma RingStagesMeet(g: Geometry, d: real, vs: seq<Point>)
    requires |vs| >= 2
    ensures RingStages(g, d, vs) <==> CornersMeet(g, d, vs, 0, |vs|)
  {
    var n := |vs|;
    RingStartOutcome(g, d, vs);
    CornersMeetRing(g, d, vs);
    if RingStart(g, d, vs).Success? {
      var st := RingStart(g, d, vs).value.st;
      WalkShape(g, d, vs, st, n - 1);
      if Walk(g, d, vs, st, n - 1).Success? {
        var s := Walk(g, d, vs, st, n - 1).value;
        assert Prev(n, n - 1) == n - 2 && Next(n, n - 1) == 0;
        StepMeets(g, d, vs, s, n - 1);
      }
    }
  }

  /** Around a ring, the corners are vertex 0, the interior ones and vertex
      n-1. */
  lemma CornersMeetRing(g: Geometry, d: real, vs: seq<Point>)
    requires |vs| >= 2
    ensures CornersMeet(g, d, vs, 0, |vs|) <==>
      Meets(g, d, vs, 0) && CornersMeet(g, d, vs, 1, |vs| - 1) && Meets(g, d, vs, |vs| - 1)
  {
  }

  /** Around a ring, the arc vertices are vertex 0, the interior ones and
      vertex n-1. */
  lemma ArcVerticesRing(g: Geometry, d: real, vs: seq<Point>)
    requires |vs| >= 2
    ensures ArcVertices(g, d, vs, 0, |vs|)
         == (if Truncates(g, d, vs, 0) then 0 else 1) + ArcVertices(g, d, vs, 1, |vs| - 1)
            + (if Truncates(g, d, vs, |vs| - 1) then 0 else 1)
  {
    ArcVerticesSplit(g, d, vs, 0, 1, |vs| - 1);
  }

  /** A successful parallel of a ring with n >= 2 vertices has n segments
      and one arc per vertex where the test does not truncate. */
  lemma RingParallelCounts(g: Geometry, d: real, vs: seq<Point>)
    requires |vs| >= 2
    ensures ParallelPieces(g, LinearRing(vs), d).Success? ==>
      var ps := ParallelPieces(g, LinearRing(vs), d).value;
      && Segments(ps) == |vs| && Arcs(ps) == ArcVertices(g, d, vs, 0, |vs|)
      && |ps| == Segments(ps) + Arcs(ps)
  {
    var n := |vs|;
    RingStagesSucceed(g, d, vs);
    if RingStages(g, d, vs) {
      RingStartOutcome(g, d, vs);
      RingStartPieces(g, d, vs);
      RingStartFacts(g, d, vs);
      ArcVerticesRing(g, d, vs);
      assert Prev(n, n - 1) == n - 2 && Next(n, n - 1) == 0;
      var ri := RingStart(g, d, vs).value;
      WalkShape(g, d, vs, ri.st, n - 1);
      WalkCounts(g, d, vs, ri.st, n - 1);
      var s := Walk(g, d, vs, ri.st, n - 1).value;
      StepShape(g, d, s, vs[n - 1], vs[0]);
      var t := Step(g, d, s, vs[n - 1], vs[0]).value;
      CountsSnoc(t.pieces, SegmentPiece(t.p1, ri.p0));
      PiecesAreSegmentsOrArcs(t.pieces + [SegmentPiece(t.p1, ri.p0)]);
    }
  }

  /** The arcs of a successful parallel of a ring go around the vertices
      where the test does not truncate, one each, in order from vertex 0 to
      vertex n-1. */
  lemma RingParallelArcCentres(g: Geometry, d: real, vs: seq<Point>)
    requires |vs| >= 2
    ensures ParallelPieces(g, LinearRing(vs), d).Success? ==>
      ArcCentres(ParallelPieces(g, LinearRing(vs), d).value) == ArcVertexList(g, d, vs, 0, |vs|)
  {
    RingStagesSucceed(g, d, vs);
    if RingStages(g, d, vs) {
      RingLastArcCentres(g, d, vs);
      var t := RingLast(g, d, vs);
      ArcCentresSnoc(t.pieces, SegmentPiece(t.p1, RingStart(g, d, vs).value.p0));
    }
  }

  /** The ring's initialisation emits the arc around vertex 0 exactly when
      the test does not truncate there. */
  lemma RingStartArcCentres(g: Geometry, d: real, vs: seq<Point>)
    requires |vs| >= 2
    ensures RingStart(g, d, vs).Success? ==>
      ArcCentres(RingStart(g, d, vs).value.st.pieces) == ArcVertexList(g, d, vs, 0, 1)
  {
    RingStartPieces(g, d, vs);
    ArcVertexListSnoc(g, d, vs, 0, 1);
    if RingStart(g, d, vs).Success? && !Truncates(g, d, vs, 0) {
      var ps := RingStart(g, d, vs).value.st.pieces;
      ArcCentresSnoc([], ps[0]);
      assert [] + [ps[0]] == ps;
    }
  }

  /** Before the closing segment, the ring's arcs are around the
      non-truncating vertices 0 .. n-1, in order. */
  lemma RingLastArcCentres(g: Geometry, d: real, vs: seq<Point>)
    requires |vs| >= 2 && RingStages(g, d, vs)
    ensures ArcCentres(RingLast(g, d, vs).pieces) == ArcVertexList(g, d, vs, 0, |vs|)
  {
    var n := |vs|;
    var a0, a1 := ArcVertexList(g, d, vs, 0, 1), ArcVertexList(g, d, vs, 1, n - 1);
    var tail := if Truncates(g, d, vs, n - 1) then [] else [vs[n - 1]];
    assert ArcVertexList(g, d, vs, 0, n) == a0 + a1 + tail by {
      KeptSplit(vs, ArcFlags(g, d, vs), 0, 1, n - 1);
      ArcVertexListSnoc(g, d, vs, 0, n);
    }
    var st := RingStart(g, d, vs).value.st;
    assert st.line0 == EdgeParallel(g, vs[0], vs[1], d) && st.p2 == g.project(st.line0, vs[1]) by {
      RingStartOutcome(g, d, vs);
    }
    var s := Walk(g, d, vs, st, n - 1).value;
    assert ArcCentres(s.pieces) == a0 + a1 by {
      RingStartArcCentres(g, d, vs);
      WalkArcCentres(g, d, vs, st, n - 1);
    }
    assert s.line0 == EdgeParallel(g, vs[n - 2], vs[n - 1], d) by {
      WalkEndsOnEdge(g, d, vs, st, n - 1);
    }
    assert RingLast(g, d, vs) == Step(g, d, s, vs[n - 1], vs[0]).value;
    LastCornerArcCentres(g, d, vs, s);
  }

  /** The corner at the last vertex n-1, between the edges (vs[n-2], vs[n-1])
      and (vs[n-1], vs[0]), adds the arc centre vs[n-1] exactly when it does
      not truncate. */
  lemma LastCornerArcCentres(g: Geometry, d: real, vs: seq<Point>, s: WalkState)
    requires |vs| >= 2 && s.line0 == EdgeParallel(g, vs[|vs| - 2], vs[|vs| - 1], d)
    ensures Step(g, d, s, vs[|vs| - 1], vs[0]).Success? ==>
      ArcCentres(Step(g, d, s, vs[|vs| - 1], vs[0]).value.pieces)
        == ArcCentres(s.pieces) + (if Truncates(g, d, vs, |vs| - 1) then [] else [vs[|vs| - 1]])
  {
    var n := |vs|;
    assert Prev(n, n - 1) == n - 2 && Next(n, n - 1) == 0;
    StepArcCentresAt(g, d, vs, s, n - 1);
  }

  /** A successful parallel of a ring is chained, its arcs are centred at
      vertices with radius |d|, and its last piece is the segment that ends
      at the closing point p0. */
  lemma RingParallelChained(g: Geometry, d: real, vs: seq<Point>)
    requires |vs| >= 2
    ensures ParallelPieces(g, LinearRing(vs), d).Success? ==>
      var ps := ParallelPieces(g, LinearRing(vs), d).value;
      && ArcsOk(ps, vs, d) && Chained(g, ps)
      && Last(ps).SegmentPiece? && Last(ps).end == RingStart(g, d, vs).value.p0
  {
    var n := |vs|;
    RingStagesSucceed(g, d, vs);
    if RingStages(g, d, vs) {
      RingStartOutcome(g, d, vs);
      RingStartPieces(g, d, vs);
      RingStartFacts(g, d, vs);
      var ri := RingStart(g, d, vs).value;
      WalkKeepsInvariant(g, d, vs, ri.st, n - 1);
      var s := Walk(g, d, vs, ri.st, n - 1).value;
      StepKeepsInvariant(g, d, s, vs, vs[n - 1], vs[0]);
      var t := Step(g, d, s, vs[n - 1], vs[0]).value;
      ChainSegment(g, t.pieces, t.p1, ri.p0);
    }
  }

  /** A successful parallel of a ring is closed: its last segment ends at
      p0, which is where the first segment starts after a truncation at
      vertex 0, and where the arc at vertex 0 starts otherwise; that arc
      ends where the first segment starts. */
  lemma RingParallelClosed(g: Geometry, d: real, vs: seq<Point>)
    requires |vs| >= 2
    ensures ParallelPieces(g, LinearRing(vs), d).Success? ==>
      var ps := ParallelPieces(g, LinearRing(vs), d).value;
      && (Truncates(g, d, vs, 0) ==> ps[0].SegmentPiece? && ps[0].start == Last(ps).end)
      && (!Truncates(g, d, vs, 0) ==>
            |ps| >= 2 && ps[0].ArcPiece? && ps[0].center == vs[0]
            && ps[0].t0 == g.position(vs[0], Abs(d), Last(ps).end)
            && ps[1].SegmentPiece? && ps[0].t1 == g.position(vs[0], Abs(d), ps[1].start))
  {
    var n := |vs|;
    RingStagesSucceed(g, d, vs);
    if RingStages(g, d, vs) {
      RingStartOutcome(g, d, vs);
      RingStartPieces(g, d, vs);
      var ri := RingStart(g, d, vs).value;
      var st := ri.st;
      WalkPrefix(g, d, vs, st, n - 1);
      var s := Walk(g, d, vs, st, n - 1).value;
      StepShape(g, d, s, vs[n - 1], vs[0]);
      var t := RingLast(g, d, vs);
      assert t == Step(g, d, s, vs[n - 1], vs[0]).value;
      var ps := t.pieces + [SegmentPiece(t.p1, ri.p0)];
      assert ParallelPieces(g, LinearRing(vs), d).value == ps;
      var m := |st.pieces|;
      // the first piece emitted after the initialisation starts at st.p1
      assert ps[m].SegmentPiece? && ps[m].start == st.p1 by {
        if n - 1 >= 2 {
          assert ps[m] == t.pieces[m] == s.pieces[m];
        } else {
          assert s == st;
        }
      }
      if !Truncates(g, d, vs, 0) {
        assert ps[0] == t.pieces[0] == s.pieces[0] == st.pieces[0];
      }
    }
  }

  // ---------------------------------------------------------------------
  // The walk with the arc branch corrected

  /** The corner as the documented continuity requires it: the truncating
      branch is unchanged; in the other branch the arc around v1 runs from
      the end of the pending segment to the foot of v1 on the next parallel,
      and that foot becomes the start of the next segment, as the ring
      initialisation does at vertex 0. */
  function StepIntended(g: Geometry, d: real, s: WalkState, v1: Point, v2: Point): Result<WalkState> {
    var line := EdgeParallel(g, v1, v2, d);
    if TurnTest(g.angle(s.line0, line), d) then Step(g, d, s, v1, v2)
    else
      var q := g.project(line, v1);
      Success(WalkState(q, g.project(line, v2), line,
                        s.pieces + [SegmentPiece(s.p1, s.p2), ArcAt(g, v1, s.p2, q, d)]))
  }

  /** Walk with the corrected corner. */
  function WalkIntended(g: Geometry, d: real, vs: seq<Point>, st: WalkState, k: nat): Result<WalkState>
    requires 1 <= k < |vs|
  {
    if k == 1 then Success(st)
    else
      match WalkIntended(g, d, vs, st, k - 1)
      case Failure(e) => Failure(e)
      case Success(s) => StepIntended(g, d, s, vs[k - 1], vs[k])
  }

  /** OpenParallel with the corrected corner. */
  function OpenParallelIntended(g: Geometry, d: real, vs: seq<Point>): Result<seq<Piece>>
    requires |vs| >= 2
  {
    match WalkIntended(g, d, vs, OpenStart(g, d, vs), |vs| - 1)
    case Failure(e) => Failure(e)
    case Success(s) => Success(s.pieces + [SegmentPiece(s.p1, s.p2)])
  }

  /** RingParallel with the corrected corner, in the loop and at the last
      vertex. */
  function RingParallelIntended(g: Geometry, d: real, vs: seq<Point>): Result<seq<Piece>>
    requires |vs| >= 2
  {
    match RingStart(g, d, vs)
    case Failure(e) => Failure(e)
    case Success(ri) =>
      match WalkIntended(g, d, vs, ri.st, |vs| - 1)
      case Failure(e) => Failure(e)
      case Success(s) =>
        match StepIntended(g, d, s, vs[|vs| - 1], vs[0])
        case Failure(e) => Failure(e)
        case Success(t) => Success(t.pieces + [SegmentPiece(t.p1, ri.p0)])
  }

  /** p lies on the circle of centre c and radius r. */
  predicate OnCircle(c: Point, r: real, p: Point) {
    PointSqDistance(p, c) == r * r
  }

  /** Piece i continues piece i-1: a segment after a segment starts where it
      ended; an arc after a segment starts at the segment's end, which lies
      on its circle; a segment after an arc starts at a point of the circle
      whose position is where the arc ends. Two arcs never follow each
      other. */
  predicate Follows(g: Geometry, ps: seq<Piece>, i: nat)
    requires 1 <= i < |ps|
  {
    var a := ps[i - 1];
    var b := ps[i];
    if a.SegmentPiece? && b.SegmentPiece? then b.start == a.end
    else if a.SegmentPiece? then
      OnCircle(b.center, b.radius, a.end) && b.t0 == g.position(b.center, b.radius, a.end)
    else if b.SegmentPiece? then
      OnCircle(a.center, a.radius, b.start) && a.t1 == g.position(a.center, a.radius, b.start)
    else false
  }

  /** The curve has no gap: each piece starts where the previous one ends. */
  predicate Continuous(g: Geometry, ps: seq<Piece>) {
    forall i | 1 <= i < |ps| :: Follows(g, ps, i)
  }

  /** A segment starting at p1 may be appended to ps without a gap. */
  predicate Reaches(g: Geometry, ps: seq<Piece>, p1: Point) {
    if |ps| == 0 then true
    else if Last(ps).SegmentPiece? then Last(ps).end == p1
    else OnCircle(Last(ps).center, Last(ps).radius, p1)
         && Last(ps).t1 == g.position(Last(ps).center, Last(ps).radius, p1)
  }

  /** The projection is the orthogonal one on every line with a direction. */
  ghost predicate ProjectExact(g: Geometry) {
    forall l: Line, p: Point {:trigger g.project(l, p)} :: HasDirection(l) ==> g.project(l, p) == Project(l, p)
  }

  /** The norm of the edge (a, b) is its length; a and b are distinct. */
  predicate NormExact(g: Geometry, a: Point, b: Point) {
    IsNorm(g.norm(b.x - a.x, b.y - a.y), b.x - a.x, b.y - a.y)
  }

  /** The norms of the edges of the open polyline vs are exact. */
  predicate EdgesExact(g: Geometry, vs: seq<Point>) {
    forall j | 0 <= j < |vs| - 1 :: NormExact(g, vs[j], vs[j + 1])
  }

  /** With exact collaborators, both end points of an edge project on its
      parallel at distance |d|: on the circles of radius |d| around them. */
  lemma EdgeFeetOnCircles(g: Geometry, a: Point, b: Point, d: real)
    requires ProjectExact(g) && NormExact(g, a, b)
    ensures g.project(EdgeParallel(g, a, b, d), a) == PointAt(EdgeParallel(g, a, b, d), 0.0)
    ensures g.project(EdgeParallel(g, a, b, d), b) == PointAt(EdgeParallel(g, a, b, d), 1.0)
    ensures OnCircle(a, Abs(d), g.project(EdgeParallel(g, a, b, d), a))
    ensures OnCircle(b, Abs(d), g.project(EdgeParallel(g, a, b, d), b))
  {
    var l := Through(a, b);
    var dd := g.norm(b.x - a.x, b.y - a.y);
    ProjectOnParallel(l, d, dd, 0.0);
    ProjectOnParallel(l, d, dd, 1.0);
    assert Abs(d) * Abs(d) == d * d;
  }

  /** Appending a segment that starts at the reaching point keeps the curve
      continuous, and the segment's end becomes the reaching point. */
  lemma AppendSegment(g: Geometry, ps: seq<Piece>, p1: Point, q: Point)
    requires Continuous(g, ps) && Reaches(g, ps, p1)
    ensures Continuous(g, ps + [SegmentPiece(p1, q)])
    ensures Reaches(g, ps + [SegmentPiece(p1, q)], q)
  {
    var qs := ps + [SegmentPiece(p1, q)];
    forall i | 1 <= i < |qs|
      ensures Follows(g, qs, i)
    {
      if i < |ps| {
        assert Follows(g, ps, i);
      }
    }
  }

  /** Appending an arc around v1 from the end p2 of the last segment to a
      point q of its circle keeps the curve continuous, and q becomes the
      reaching point. */
  lemma AppendArc(g: Geometry, ps: seq<Piece>, v1: Point, p2: Point, q: Point, d: real)
    requires Continuous(g, ps) && |ps| > 0 && Last(ps).SegmentPiece? && Last(ps).end == p2
    requires OnCircle(v1, Abs(d), p2) && OnCircle(v1, Abs(d), q)
    ensures Continuous(g, ps + [ArcAt(g, v1, p2, q, d)])
    ensures Reaches(g, ps + [ArcAt(g, v1, p2, q, d)], q)
  {
    var qs := ps + [ArcAt(g, v1, p2, q, d)];
    forall i | 1 <= i < |qs|
      ensures Follows(g, qs, i)
    {
      if i < |ps| {
        assert Follows(g, ps, i);
      }
    }
  }

  /** The corrected corner keeps the curve continuous: if the pending
      segment lies on the parallel of the edge (u, v1) and ends at the foot
      of v1, the pieces stay gap-free, the new pending segment starts where
      they end, and it lies on the parallel of (v1, v2), ending at the foot
      of v2. */
  lemma StepIntendedContinuous(g: Geometry, d: real, s: WalkState, u: Point, v1: Point, v2: Point)
    requires ProjectExact(g) && NormExact(g, u, v1) && NormExact(g, v1, v2)
    requires s.line0 == EdgeParallel(g, u, v1, d) && s.p2 == g.project(s.line0, v1)
    requires Continuous(g, s.pieces) && Reaches(g, s.pieces, s.p1)
    ensures StepIntended(g, d, s, v1, v2).Success? ==>
      var t := StepIntended(g, d, s, v1, v2).value;
      && t.line0 == EdgeParallel(g, v1, v2, d) && t.p2 == g.project(t.line0, v2)
      && Continuous(g, t.pieces) && Reaches(g, t.pieces, t.p1)
  {
    var line := EdgeParallel(g, v1, v2, d);
    if TurnTest(g.angle(s.line0, line), d) {
      if g.intersection(line, s.line0).Some? {
        AppendSegment(g, s.pieces, s.p1, g.intersection(line, s.line0).value);
      }
    } else {
      var q := g.project(line, v1);
      EdgeFeetOnCircles(g, u, v1, d);
      EdgeFeetOnCircles(g, v1, v2, d);
      AppendSegment(g, s.pieces, s.p1, s.p2);
      AppendArc(g, s.pieces + [SegmentPiece(s.p1, s.p2)], v1, s.p2, q, d);
      assert s.pieces + [SegmentPiece(s.p1, s.p2)] + [ArcAt(g, v1, s.p2, q, d)]
          == s.pieces + [SegmentPiece(s.p1, s.p2), ArcAt(g, v1, s.p2, q, d)];
    }
  }

  /** The corrected walk keeps the curve continuous through every corner,
      and ends on the parallel of the edge (vs[k-1], vs[k]) at the foot of
      vs[k]. */
  lemma {:induction false} WalkIntendedContinuous(g: Geometry, d: real, vs: seq<Point>, st: WalkState, k: nat)
    requires 1 <= k < |vs|
    requires ProjectExact(g) && EdgesExact(g, vs)
    requires st.line0 == EdgeParallel(g, vs[0], vs[1], d) && st.p2 == g.project(st.line0, vs[1])
    requires Continuous(g, st.pieces) && Reaches(g, st.pieces, st.p1)
    ensures WalkIntended(g, d, vs, st, k).Success? ==>
      var s := WalkIntended(g, d, vs, st, k).value;
      && s.line0 == EdgeParallel(g, vs[k - 1], vs[k], d) && s.p2 == g.project(s.line0, vs[k])
      && Continuous(g, s.pieces) && Reaches(g, s.pieces, s.p1)
  {
    if k > 1 {
      WalkIntendedContinuous(g, d, vs, st, k - 1);
      if WalkIntended(g, d, vs, st, k - 1).Success? {
        assert NormExact(g, vs[k - 2], vs[k - 1]) && NormExact(g, vs[k - 1], vs[k]);
        StepIntendedContinuous(g, d, WalkIntended(g, d, vs, st, k - 1).value, vs[k - 2], vs[k - 1], vs[k]);
      }
    }
  }

  /** With exact collaborators, the corrected parallel of an open polyline
      is continuous, as documented. */
  lemma OpenParallelIntendedContinuous(g: Geometry, d: real, vs: seq<Point>)
    requires |vs| >= 2 && ProjectExact(g) && EdgesExact(g, vs)
    ensures OpenParallelIntended(g, d, vs).Success? ==> Continuous(g, OpenParallelIntended(g, d, vs).value)
  {
    WalkIntendedContinuous(g, d, vs, OpenStart(g, d, vs), |vs| - 1);
    var w := WalkIntended(g, d, vs, OpenStart(g, d, vs), |vs| - 1);
    if w.Success? {
      AppendSegment(g, w.value.pieces, w.value.p1, w.value.p2);
    }
  }

  /** With exact collaborators (the closing edge included), the corrected
      parallel of a ring is continuous from its first piece to the closing
      segment. */
  lemma RingParallelIntendedContinuous(g: Geometry, d: real, vs: seq<Point>)
    requires |vs| >= 2 && ProjectExact(g) && EdgesExact(g, vs) && NormExact(g, vs[|vs| - 1], vs[0])
    ensures RingParallelIntended(g, d, vs).Success? ==> Continuous(g, RingParallelIntended(g, d, vs).value)
  {
    var n := |vs|;
    if RingStart(g, d, vs).Success? {
      var ri := RingStart(g, d, vs).value;
      assert NormExact(g, vs[0], vs[1]);
      EdgeFeetOnCircles(g, vs[0], vs[1], d);
      assert Continuous(g, ri.st.pieces) && Reaches(g, ri.st.pieces, ri.st.p1);
      WalkIntendedContinuous(g, d, vs, ri.st, n - 1);
      if WalkIntended(g, d, vs, ri.st, n - 1).Success? {
        var s := WalkIntended(g, d, vs, ri.st, n - 1).value;
        assert NormExact(g, vs[n - 2], vs[n - 1]);
        StepIntendedContinuous(g, d, s, vs[n - 2], vs[n - 1], vs[0]);
        if StepIntended(g, d, s, vs[n - 1], vs[0]).Success? {
          var t := StepIntended(g, d, s, vs[n - 1], vs[0]).value;
          AppendSegment(g, t.pieces, t.p1, ri.p0);
        }
      }
    }
  }

  /** Walk(k) extends Walk(j) for j <= k: it keeps its pieces, and the
      first piece added after them is a segment from its pending start. */
  lemma {:induction false} WalkExtends(g: Geometry, d: real, vs: seq<Point>, st: WalkState, j: nat, k: nat)
    requires 1 <= j <= k < |vs|
    ensures Walk(g, d, vs, st, k).Success? ==> Walk(g, d, vs, st, j).Success?
    ensures Walk(g, d, vs, st, k).Success? ==>
      var s, t := Walk(g, d, vs, st, j).value, Walk(g, d, vs, st, k).value;
      && |t.pieces| >= |s.pieces| && t.pieces[..|s.pieces|] == s.pieces
      && (j < k ==> |t.pieces| > |s.pieces| && t.pieces[|s.pieces|].SegmentPiece?
                    && t.pieces[|s.pieces|].start == s.p1)
  {
    if j < k {
      WalkExtends(g, d, vs, st, j, k - 1);
      if Walk(g, d, vs, st, k).Success? {
        var s, u := Walk(g, d, vs, st, j).value, Walk(g, d, vs, st, k - 1).value;
        StepShape(g, d, u, vs[k - 1], vs[k]);
        var t := Walk(g, d, vs, st, k).value;
        assert t.pieces[..|s.pieces|] == u.pieces[..|u.pieces|][..|s.pieces|];
        if j < k - 1 {
          assert t.pieces[|s.pieces|] == u.pieces[|s.pieces|];
        }
      }
    }
  }

  /** As written, the parallel of an open polyline whose corner at vs[1]
      emits an arc is never continuous, even with exact collaborators: the
      segment after the arc starts again where the first segment starts, at
      squared distance d^2 + |vs[1] - vs[0]|^2 from the arc's centre vs[1],
      off its circle of radius |d|. */
  lemma OpenParallelGap(g: Geometry, d: real, vs: seq<Point>)
    requires |vs| >= 3 && ProjectExact(g) && EdgesExact(g, vs) && !Truncates(g, d, vs, 1)
    ensures OpenParallel(g, d, vs).Success? ==>
      var ps := OpenParallel(g, d, vs).value;
      && |ps| >= 3 && ps[0].SegmentPiece? && ps[1].ArcPiece? && ps[1].center == vs[1]
      && ps[2].SegmentPiece? && ps[2].start == ps[0].start
      && PointSqDistance(ps[2].start, vs[1]) == d * d + PointSqDistance(vs[1], vs[0])
      && !Continuous(g, ps)
  {
    OpenRestart(g, d, vs);
    if OpenParallel(g, d, vs).Success? {
      var ps := OpenParallel(g, d, vs).value;
      assert NormExact(g, vs[0], vs[1]);
      FootOffCircle(g, vs[0], vs[1], d);
      assert !Follows(g, ps, 2);
    }
  }

  /** The pieces of a parallel whose corner at vs[1] emits an arc begin
      with the first segment, the arc back to its start, and a segment
      from that same start. */
  lemma OpenRestart(g: Geometry, d: real, vs: seq<Point>)
    requires |vs| >= 3 && !Truncates(g, d, vs, 1)
    ensures OpenParallel(g, d, vs).Success? ==>
      var ps, st := OpenParallel(g, d, vs).value, OpenStart(g, d, vs);
      && |ps| >= 3 && ps[0] == SegmentPiece(st.p1, st.p2) && ps[1] == ArcAt(g, vs[1], st.p2, st.p1, d)
      && ps[2].SegmentPiece? && ps[2].start == st.p1
  {
    var n := |vs|;
    var st := OpenStart(g, d, vs);
    assert Prev(n, 1) == 0 && Next(n, 1) == 2;
    assert Walk(g, d, vs, st, 2) == Step(g, d, st, vs[1], vs[2]);
    StepShape(g, d, st, vs[1], vs[2]);
    var s2 := Walk(g, d, vs, st, 2).value;
    assert s2.p1 == st.p1 && s2.pieces == [SegmentPiece(st.p1, st.p2), ArcAt(g, vs[1], st.p2, st.p1, d)];
    WalkExtends(g, d, vs, st, 2, n - 1);
    if OpenParallel(g, d, vs).Success? {
      var s := Walk(g, d, vs, st, n - 1).value;
      var ps := OpenParallel(g, d, vs).value;
      assert ps == s.pieces + [SegmentPiece(s.p1, s.p2)];
      assert ps[..2] == s2.pieces by {
        assert ps[..2] == s.pieces[..2];
      }
      assert ps[0] == s2.pieces[0] && ps[1] == s2.pieces[1];
      if n - 1 > 2 {
        assert ps[2] == s.pieces[2];
      }
    }
  }

  /** With exact collaborators, the foot of a on the parallel of the edge
      (a, b) is off the circle of radius |d| around b: its squared distance
      to b exceeds d^2 by the squared length of the edge. */
  lemma FootOffCircle(g: Geometry, a: Point, b: Point, d: real)
    requires ProjectExact(g) && NormExact(g, a, b)
    ensures PointSqDistance(g.project(EdgeParallel(g, a, b, d), a), b) == d * d + PointSqDistance(b, a)
    ensures !OnCircle(b, Abs(d), g.project(EdgeParallel(g, a, b, d), a))
  {
    var l := Through(a, b);
    var dd := g.norm(b.x - a.x, b.y - a.y);
    var f := g.project(EdgeParallel(g, a, b, d), a);
    assert f == PointAt(Parallel(l, d, dd), 0.0) by {
      EdgeFeetOnCircles(g, a, b, d);
    }
    ParallelPointDistance(l, d, dd, 0.0, 1.0);
    assert PointSqDistance(f, b) == d * d + SqNorm(l);
    NormHasDirection(l, dd);
    SqNormPositive(l);
    assert SqNorm(l) == PointSqDistance(b, a);
    assert Abs(d) * Abs(d) == d * d;
  }

  // ---------------------------------------------------------------------
  // Intersections of two edge lists

  function OptionToSeq<T>(o: Option<T>): seq<T> {
    if o.Some? then [o.value] else []
  }

  /** The non-null intersections of edge e with the edges es, in order. */
  function Row(meet: (LineSegment, LineSegment) -> Option<Point>, e: LineSegment, es: seq<LineSegment>): seq<Point> {
    if |es| == 0 then []
    else Row(meet, e, es[..|es| - 1]) + OptionToSeq(meet(e, Last(es)))
  }

  /** All non-null intersections of an edge of e1 with an edge of e2, in
      row-major order over the edge pairs, repetitions included. */
  function Candidates(meet: (LineSegment, LineSegment) -> Option<Point>, e1: seq<LineSegment>, e2: seq<LineSegment>): seq<Point> {
    if |e1| == 0 then []
    else Candidates(meet, e1[..|e1| - 1], e2) + Row(meet, Last(e1), e2)
  }

  /** `if (!points.contains(point)) points.add(point)`. */
  function AddNew(ps: seq<Point>, p: Point): seq<Point> {
    if p in ps then ps else ps + [p]
  }

  /** The list obtained by adding the points of s one by one, skipping those
      already present. */
  function Dedup(s: seq<Point>): seq<Point> {
    if |s| == 0 then []
    else AddNew(Dedup(s[..|s| - 1]), Last(s))
  }

  /** intersect(poly1, poly2), on the edge lists poly1.edges() and
      poly2.edges(); `meet` stands for LineSegment2D.intersection (None for
      null). The nested loop collects the first occurrences of the
      candidate points, in row-major order. */
  method Intersect(meet: (LineSegment, LineSegment) -> Option<Point>, edges1: seq<LineSegment>, edges2: seq<LineSegment>)
    returns (points: seq<Point>)
    ensures points == Dedup(Candidates(meet, edges1, edges2))
  {
    points := [];
    var i := 0;
    while i < |edges1|
      invariant 0 <= i <= |edges1|
      invariant points == Dedup(Candidates(meet, edges1[..i], edges2))
    {
      ghost var before := Candidates(meet, edges1[..i], edges2);
      var j := 0;
      assert before + Row(meet, edges1[i], edges2[..j]) == before;
      while j < |edges2|
        invariant 0 <= j <= |edges2|
        invariant points == Dedup(before + Row(meet, edges1[i], edges2[..j]))
      {
        var point := meet(edges1[i], edges2[j]);
        ghost var row := Row(meet, edges1[i], edges2[..j]);
        RowSnoc(meet, edges1[i], edges2, j);
        if point.Some? {
          DedupSnoc(before + row, point.value);
          assert before + (row + [point.value]) == before + row + [point.value];
          if point.value !in points {
            points := points + [point.value];
          }
        } else {
          assert row + [] == row;
        }
        j := j + 1;
      }
      assert edges2[..|edges2|] == edges2;
      CandidatesSnoc(meet, edges1, i, edges2);
      i := i + 1;
    }
    assert edges1[..|edges1|] == edges1;
  }

  lemma RowSnoc(meet: (LineSegment, LineSegment) -> Option<Point>, e: LineSegment, es: seq<LineSegment>, j: nat)
    requires j < |es|
    ensures Row(meet, e, es[..j + 1]) == Row(meet, e, es[..j]) + OptionToSeq(meet(e, es[j]))
  {
    assert es[..j + 1][..j] == es[..j];
  }

  lemma CandidatesSnoc(meet: (LineSegment, LineSegment) -> Option<Point>, e1: seq<LineSegment>, i: nat, e2: seq<LineSegment>)
    requires i < |e1|
    ensures Candidates(meet, e1[..i + 1], e2) == Candidates(meet, e1[..i], e2) + Row(meet, e1[i], e2)
  {
    assert e1[..i + 1][..i] == e1[..i];
  }

  lemma DedupSnoc(s: seq<Point>, p: Point)
    ensures Dedup(s + [p]) == AddNew(Dedup(s), p)
  {
    assert (s + [p])[..|s|] == s;
  }

  predicate NoDuplicates(s: seq<Point>) {
    forall i, j | 0 <= i < j < |s| :: s[i] != s[j]
  }

  /** The index of the first occurrence of p in s. */
  function FirstIndex(s: seq<Point>, p: Point): (r: nat)
    requires p in s
    ensures r < |s| && s[r] == p && p !in s[..r]
  {
    if s[0] == p then 0
    else
      var r := 1 + FirstIndex(s[1..], p);
      assert s[..r] == [s[0]] + s[1..][..r - 1];
      r
  }

  /** Dedup holds each point of s once, and only points of s. */
  lemma {:induction false} DedupFacts(s: seq<Point>)
    ensures NoDuplicates(Dedup(s))
    ensures forall p :: p in Dedup(s) <==> p in s
    ensures |Dedup(s)| <= |s|
  {
    if |s| > 0 {
      var init := s[..|s| - 1];
      DedupFacts(init);
      assert s == init + [Last(s)];
      forall p
        ensures p in s <==> p in init || p == Last(s)
      {
        if p in s && p != Last(s) {
          var k :| 0 <= k < |s| && s[k] == p;
          assert init[k] == p;
        }
      }
    }
  }

  /** The points of Dedup(s) are in the order of their first occurrence in s. */
  lemma {:induction false} DedupOrder(s: seq<Point>)
    ensures forall i, j | 0 <= i < j < |Dedup(s)| ::
              Dedup(s)[i] in s && Dedup(s)[j] in s && FirstIndex(s, Dedup(s)[i]) < FirstIndex(s, Dedup(s)[j])
  {
    if |s| > 0 {
      var init := s[..|s| - 1];
      var x := Last(s);
      var di := Dedup(init);
      DedupOrder(init);
      DedupFacts(init);
      assert s == init + [x];
      DedupSnoc(init, x);
      var r := Dedup(s);
      forall p | p in init
        ensures FirstIndex(s, p) == FirstIndex(init, p)
      {
        FirstIndexPrefix(init, x, p);
      }
      if x in di {
        assert r == di;
        forall i, j | 0 <= i < j < |r|
          ensures r[i] in s && r[j] in s && FirstIndex(s, r[i]) < FirstIndex(s, r[j])
        {
          assert di[i] in init && di[j] in init;
        }
      } else {
        assert r == di + [x];
        assert FirstIndex(s, x) == |init| by {
          var f := FirstIndex(s, x);
          if f < |init| {
            assert false;
          }
        }
        forall i, j | 0 <= i < j < |r|
          ensures r[i] in s && r[j] in s && FirstIndex(s, r[i]) < FirstIndex(s, r[j])
        {
          assert r[i] == di[i] && di[i] in init;
          if j < |di| {
            assert r[j] == di[j] && di[j] in init;
          } else {
            assert r[j] == x;
            assert FirstIndex(init, di[i]) < |init|;
          }
        }
      }
    }
  }

  lemma FirstIndexPrefix(s: seq<Point>, x: Point, p: Point)
    requires p in s
    ensures p in s + [x] && FirstIndex(s + [x], p) == FirstIndex(s, p)
  {
    var t := s + [x];
    var a := FirstIndex(s, p);
    var b := FirstIndex(t, p);
    assert t[..a] == s[..a] && t[a] == p;
    assert forall k | 0 <= k < a :: t[..a][k] == t[k];
    assert forall k | 0 <= k < b :: t[..b][k] == t[k];
  }

  /** p is the intersection of some edge of e1 with some edge of e2. */
  predicate IsCrossing(meet: (LineSegment, LineSegment) -> Option<Point>, e1: seq<LineSegment>, e2: seq<LineSegment>, p: Point) {
    exists i, j | 0 <= i < |e1| && 0 <= j < |e2| :: meet(e1[i], e2[j]) == Some(p)
  }

  lemma {:induction false} RowSize(meet: (LineSegment, LineSegment) -> Option<Point>, e: LineSegment, es: seq<LineSegment>)
    ensures |Row(meet, e, es)| <= |es|
  {
    if |es| > 0 {
      RowSize(meet, e, es[..|es| - 1]);
    }
  }

  lemma {:induction false} RowMembers(meet: (LineSegment, LineSegment) -> Option<Point>, e: LineSegment, es: seq<LineSegment>)
    ensures forall p :: p in Row(meet, e, es) <==> exists j | 0 <= j < |es| :: meet(e, es[j]) == Some(p)
  {
    if |es| > 0 {
      var init := es[..|es| - 1];
      RowMembers(meet, e, init);
      forall p
        ensures p in Row(meet, e, es) <==> exists j | 0 <= j < |es| :: meet(e, es[j]) == Some(p)
      {
        if exists j | 0 <= j < |es| :: meet(e, es[j]) == Some(p) {
          var j :| 0 <= j < |es| && meet(e, es[j]) == Some(p);
          if j < |es| - 1 {
            assert init[j] == es[j];
          }
        }
        if p in Row(meet, e, init) {
          var j :| 0 <= j < |init| && meet(e, init[j]) == Some(p);
          assert es[j] == init[j];
        }
      }
    }
  }

  lemma MulSucc(a: nat, b: nat)
    ensures (a + 1) * b == a * b + b
  {
  }

  lemma {:induction false} CandidatesSize(meet: (LineSegment, LineSegment) -> Option<Point>, e1: seq<LineSegment>, e2: seq<LineSegment>)
    ensures |Candidates(meet, e1, e2)| <= |e1| * |e2|
  {
    if |e1| > 0 {
      var init := e1[..|e1| - 1];
      CandidatesSize(meet, init, e2);
      RowSize(meet, Last(e1), e2);
      MulSucc(|init|, |e2|);
    }
  }

  lemma {:induction false} CandidatesMembers(meet: (LineSegment, LineSegment) -> Option<Point>, e1: seq<LineSegment>, e2: seq<LineSegment>)
    ensures forall p :: p in Candidates(meet, e1, e2) <==> IsCrossing(meet, e1, e2, p)
  {
    if |e1| > 0 {
      var init := e1[..|e1| - 1];
      CandidatesMembers(meet, init, e2);
      RowMembers(meet, Last(e1), e2);
      forall p
        ensures p in Candidates(meet, e1, e2) <==> IsCrossing(meet, e1, e2, p)
      {
        if IsCrossing(meet, e1, e2, p) {
          var i, j :| 0 <= i < |e1| && 0 <= j < |e2| && meet(e1[i], e2[j]) == Some(p);
          if i < |e1| - 1 {
            assert init[i] == e1[i];
            assert IsCrossing(meet, init, e2, p);
          }
        }
        if IsCrossing(meet, init, e2, p) {
          var i, j :| 0 <= i < |init| && 0 <= j < |e2| && meet(init[i], e2[j]) == Some(p);
          assert e1[i] == init[i];
        }
        if p in Row(meet, Last(e1), e2) {
          var j :| 0 <= j < |e2| && meet(Last(e1), e2[j]) == Some(p);
          assert e1[|e1| - 1] == Last(e1);
        }
      }
    }
  }

  /** What intersect returns: no point twice; a point is in the result
      exactly when some edge pair intersects there; at most one point per
      edge pair; points in the order of their first occurrence over the
      row-major loop. */
  lemma IntersectFacts(meet: (LineSegment, LineSegment) -> Option<Point>, e1: seq<LineSegment>, e2: seq<LineSegment>)
    ensures NoDuplicates(Dedup(Candidates(meet, e1, e2)))
    ensures forall p :: p in Dedup(Candidates(meet, e1, e2)) <==> IsCrossing(meet, e1, e2, p)
    ensures |Dedup(Candidates(meet, e1, e2))| <= |e1| * |e2|
    ensures var c := Candidates(meet, e1, e2);
            var r := Dedup(c);
            forall i, j | 0 <= i < j < |r| :: r[i] in c && r[j] in c && FirstIndex(c, r[i]) < FirstIndex(c, r[j])
  {
    CandidatesSize(meet, e1, e2);
    CandidatesMembers(meet, e1, e2);
    DedupFacts(Candidates(meet, e1, e2));
    DedupOrder(Candidates(meet, e1, e2));
  }

  /** When the segment intersection is symmetric, intersecting in either
      order yields the same set of points. */
  lemma IntersectSymmetric(meet: (LineSegment, LineSegment) -> Option<Point>, e1: seq<LineSegment>, e2: seq<LineSegment>)
    requires forall a, b :: meet(a, b) == meet(b, a)
    ensures forall p :: p in Dedup(Candidates(meet, e1, e2)) <==> p in Dedup(Candidates(meet, e2, e1))
  {
    IntersectFacts(meet, e1, e2);
    IntersectFacts(meet, e2, e1);
    forall p
      ensures IsCrossing(meet, e1, e2, p) <==> IsCrossing(meet, e2, e1, p)
    {
      if IsCrossing(meet, e1, e2, p) {
        var i, j :| 0 <= i < |e1| && 0 <= j < |e2| && meet(e1[i], e2[j]) == Some(p);
        assert meet(e2[j], e1[i]) == Some(p);
      }
      if IsCrossing(meet, e2, e1, p) {
        var i, j :| 0 <= i < |e2| && 0 <= j < |e1| && meet(e2[i], e1[j]) == Some(p);
        assert meet(e1[j], e2[i]) == Some(p);
      }
    }
  }
}
