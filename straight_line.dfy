/** Model of the straight-line kernel: an immutable, infinite line stored as
    an origin (x0, y0) and a direction vector (dx, dy). Every operation
    returns a new line or a value computed from the four components.

    Square roots, atan2, cos and sin are not computed: the norm of a
    direction vector is an argument `dd` (IsNorm says when it is the true
    norm), and trigonometric functions are arguments of arrow type. */
module StraightLine2D {
  import opened Geom2D

  datatype Line = Line(x0: real, y0: real, dx: real, dy: real)

  function Origin(l: Line): Point {
    Point(l.x0, l.y0)
  }

  function Dot(ux: real, uy: real, vx: real, vy: real): real {
    ux * vx + uy * vy
  }

  function Cross(ux: real, uy: real, vx: real, vy: real): real {
    ux * vy - uy * vx
  }

  /** The squared length of the direction vector. */
  function SqNorm(l: Line): real {
    l.dx * l.dx + l.dy * l.dy
  }

  /** A line whose direction vector is not the zero vector. */
  predicate HasDirection(l: Line) {
    l.dx != 0.0 || l.dy != 0.0
  }

  /** `dd` is the Euclidean norm of (dx, dy): the value that
      Math.sqrt(dx*dx + dy*dy) and Math.hypot(dx, dy) stand for. */
  predicate IsNorm(dd: real, dx: real, dy: real) {
    dd > 0.0 && dd * dd == dx * dx + dy * dy
  }

  lemma SquareSign(x: real)
    ensures x * x >= 0.0
    ensures x != 0.0 ==> x * x > 0.0
  {
    if x < 0.0 {
      assert x * x == (-x) * (-x);
    }
  }

  lemma SqNormPositive(l: Line)
    requires HasDirection(l)
    ensures SqNorm(l) > 0.0
  {
    SquareSign(l.dx);
    SquareSign(l.dy);
    calc {
      SqNorm(l);
      l.dx * l.dx + l.dy * l.dy;
      > 0.0;
    }
  }

  lemma NormHasDirection(l: Line, dd: real)
    requires IsNorm(dd, l.dx, l.dy)
    ensures HasDirection(l) && SqNorm(l) == dd * dd
  {
    SquareSign(dd);
    calc {
      l.dx * l.dx + l.dy * l.dy;
      dd * dd;
      > 0.0;
    }
  }

  /** The cross product of the direction with p - origin: zero exactly on
      the line, positive on its left; |Side| / |direction| is the
      perpendicular distance of p to the line. */
  function Side(l: Line, p: Point): real {
    Cross(l.dx, l.dy, p.x - l.x0, p.y - l.y0)
  }

  /** p lies at perpendicular distance |d| from l, stated without division:
      Side^2 = d^2 * |direction|^2. */
  predicate AtDistance(l: Line, p: Point, d: real) {
    Side(l, p) * Side(l, p) == d * d * SqNorm(l)
  }

  /** p lies closer than eps to l: Side^2 < eps^2 * |direction|^2. */
  predicate CloserThan(l: Line, p: Point, eps: real) {
    Side(l, p) * Side(l, p) < eps * eps * SqNorm(l)
  }

  // ---------------------------------------------------------------------
  // Parametrisation and construction

  /** getPoint(t): the point of parameter t; it lies on the line, and
      parameter 0 is the origin. */
  function PointAt(l: Line, t: real): (r: Point)
    ensures Cross(l.dx, l.dy, r.x - l.x0, r.y - l.y0) == 0.0
    ensures t == 0.0 ==> r == Origin(l)
  {
    Point(l.x0 + l.dx * t, l.y0 + l.dy * t)
  }

  /** On a line with a direction, distinct parameters give distinct points. */
  lemma PointAtInjective(l: Line, s: real, t: real)
    requires HasDirection(l)
    requires PointAt(l, s) == PointAt(l, t)
    ensures s == t
  {
    if l.dx != 0.0 {
      assert l.dx * s == l.dx * t;
    } else {
      assert l.dy * s == l.dy * t;
    }
  }

  /** The line through two points (constructor StraightLine2D(p1, p2)):
      parameter 0 is p1 and parameter 1 is p2. */
  function Through(p1: Point, p2: Point): (r: Line)
    ensures PointAt(r, 0.0) == p1 && PointAt(r, 1.0) == p2
    ensures p1 != p2 <==> HasDirection(r)
  {
    Line(p1.x, p1.y, p2.x - p1.x, p2.y - p1.y)
  }

  /** getParallel(d): the line at signed distance d, with the same direction;
      `dd` is the norm of the direction. The origin moves along the normal,
      so the shift is orthogonal to the direction, and d = 0 moves nothing. */
  function Parallel(l: Line, d: real, dd: PosReal): (r: Line)
    ensures r.dx == l.dx && r.dy == l.dy
    ensures Dot(r.x0 - l.x0, r.y0 - l.y0, l.dx, l.dy) == 0.0
    ensures d == 0.0 ==> r == l
  {
    Line(l.x0 + l.dy * d / dd, l.y0 - l.dx * d / dd, l.dx, l.dy)
  }

  /** createParallel(linear, d), applied to the supporting line of `linear`:
      the same line as getParallel(d) (hypot and sqrt are the same norm). */
  function CreateParallel(line: Line, d: real, dd: PosReal): (r: Line)
    ensures r == Parallel(line, d, dd)
  {
    Line(line.x0 + line.dy * d / dd, line.y0 - line.dx * d / dd, line.dx, line.dy)
  }

  /** Every point of the parallel line lies at distance |d| from the line,
      on the right of the direction when d > 0 (the cross product of the
      direction with the offset is -d * |direction|). */
  lemma ParallelDistance(l: Line, d: real, dd: PosReal, t: real)
    requires IsNorm(dd, l.dx, l.dy)
    ensures HasDirection(l)
    ensures Side(l, PointAt(Parallel(l, d, dd), t)) == -d * dd
    ensures AtDistance(l, PointAt(Parallel(l, d, dd), t), d)
  {
    NormHasDirection(l, dd);
    ParallelSide(l, d, dd, t);
    var c := Side(l, PointAt(Parallel(l, d, dd), t));
    calc {
      c * c;
      (-d * dd) * (-d * dd);
      d * d * (dd * dd);
      d * d * SqNorm(l);
    }
  }

  /** The signed offset of a point of the parallel, scaled by the norm. */
  lemma ParallelSide(l: Line, d: real, dd: PosReal, t: real)
    requires IsNorm(dd, l.dx, l.dy)
    ensures Side(l, PointAt(Parallel(l, d, dd), t)) == -d * dd
  {
    var q := PointAt(Parallel(l, d, dd), t);
    var k := d / dd;
    MulDiv(l.dy, d, dd);
    MulDiv(l.dx, d, dd);
    assert q.x - l.x0 == l.dy * k + l.dx * t;
    assert q.y - l.y0 == -l.dx * k + l.dy * t;
    calc {
      Side(l, q);
      { OffsetCross(l.dx, l.dy, k, t); }
      -(l.dx * l.dx + l.dy * l.dy) * k;
      -(dd * dd) * k;
      { ScaledByNorm(d, dd, k); }
      -d * dd;
    }
  }

  lemma MulDiv(a: real, d: real, dd: real)
    requires dd != 0.0
    ensures a * d / dd == a * (d / dd)
  {
  }

  lemma OffsetCross(dx: real, dy: real, k: real, t: real)
    ensures Cross(dx, dy, dy * k + dx * t, -dx * k + dy * t) == -(dx * dx + dy * dy) * k
  {
  }

  lemma ScaledByNorm(d: real, dd: real, k: real)
    requires dd > 0.0 && k == d / dd
    ensures -(dd * dd) * k == -d * dd
  {
    assert dd * k == d;
  }

  /** Offsets add up: the parallel at d2 of the parallel at d1 is the
      parallel at d1 + d2; in particular -d undoes d. */
  lemma ParallelCompose(l: Line, d1: real, d2: real, dd: PosReal)
    ensures Parallel(Parallel(l, d1, dd), d2, dd) == Parallel(l, d1 + d2, dd)
  {
    assert l.dy * d1 / dd + l.dy * d2 / dd == l.dy * (d1 + d2) / dd;
    assert l.dx * d1 / dd + l.dx * d2 / dd == l.dx * (d1 + d2) / dd;
  }

  /** getPerpendicular(p): the line through p whose direction is (-dy, dx),
      the direction turned a quarter turn counter-clockwise: orthogonal to
      the original and of the same length. */
  function Perpendicular(l: Line, p: Point): (r: Line)
    ensures Origin(r) == p
    ensures Dot(r.dx, r.dy, l.dx, l.dy) == 0.0
    ensures Cross(l.dx, l.dy, r.dx, r.dy) == SqNorm(l)
    ensures SqNorm(r) == SqNorm(l)
  {
    Line(p.x, p.y, -l.dy, l.dx)
  }

  /** createPerpendicular(linear, p), applied to the supporting line of
      `linear`: the same line as getPerpendicular(p). */
  function CreatePerpendicular(line: Line, p: Point): (r: Line)
    ensures r == Perpendicular(line, p)
  {
    Line(p.x, p.y, -line.dy, line.dx)
  }

  /** Two quarter turns reverse the direction; four give it back. */
  lemma PerpendicularTwice(l: Line, p: Point, q: Point)
    ensures Perpendicular(Perpendicular(l, p), q) == Line(q.x, q.y, -l.dx, -l.dy)
    ensures Perpendicular(Perpendicular(Perpendicular(Perpendicular(l, p), q), p), q) == Line(q.x, q.y, l.dx, l.dy)
  {
  }

  /** getReverseCurve(): same origin, opposite direction. */
  function Reverse(l: Line): (r: Line)
    ensures Origin(r) == Origin(l) && r.dx == -l.dx && r.dy == -l.dy
  {
    Line(l.x0, l.y0, -l.dx, -l.dy)
  }

  /** Reversal is an involution, and it reverses the parametrisation. */
  lemma ReverseInvolution(l: Line, t: real)
    ensures Reverse(Reverse(l)) == l
    ensures PointAt(Reverse(l), t) == PointAt(l, -t)
  {
  }

  // ---------------------------------------------------------------------
  // Cartesian constructor

  /** The trigonometric functions the constructors use; not computed here. */
  datatype Trig = Trig(atan2: (real, real) -> real, cos: real -> real, sin: real -> real)

  /** Constructor StraightLine2D(a, b, c) for the line a*x + b*y + c = 0: the
      origin is the point of the line closest to (0, 0), the direction is
      (cos theta, sin theta) with theta = atan2(-a, b). With a = b = 0 the
      division 0/0 makes the origin NaN, reported as NotANumber.
      The origin satisfies the equation and lies on the normal (a, b)
      through (0, 0). */
  function FromCartesian(a: real, b: real, c: real, trig: Trig): (r: Result<Line>)
    ensures r.Failure? <==> a * a + b * b == 0.0
    ensures r.Failure? ==> r.error == NotANumber
    ensures r.Success? ==> a * r.value.x0 + b * r.value.y0 + c == 0.0
    ensures r.Success? ==> r.value.x0 * b == r.value.y0 * a
  {
    var d := a * a + b * b;
    if d == 0.0 then Failure(NotANumber)
    else
      var x0 := -a * c / d;
      var y0 := -b * c / d;
      assert a * x0 + b * y0 == -(a * a + b * b) * c / d;
      assert x0 * b == y0 * a;
      var theta := trig.atan2(-a, b);
      Success(Line(x0, y0, trig.cos(theta), trig.sin(theta)))
  }

  // ---------------------------------------------------------------------
  // Transforms

  /** An affine map by its coefficients [m00, m01, m02, m10, m11, m12], as
      AffineTransform2D.getCoefficients lists them. */
  datatype AffineTransform = AffineTransform(m00: real, m01: real, m02: real,
                                             m10: real, m11: real, m12: real)

  const Identity: AffineTransform := AffineTransform(1.0, 0.0, 0.0, 0.0, 1.0, 0.0)

  /** The image of a point under the full affine map. */
  function Apply(t: AffineTransform, p: Point): Point {
    Point(p.x * t.m00 + p.y * t.m01 + t.m02, p.x * t.m10 + p.y * t.m11 + t.m12)
  }

  /** The map t2 after t1. */
  function Compose(t2: AffineTransform, t1: AffineTransform): AffineTransform {
    AffineTransform(
      t2.m00 * t1.m00 + t2.m01 * t1.m10, t2.m00 * t1.m01 + t2.m01 * t1.m11, t2.m00 * t1.m02 + t2.m01 * t1.m12 + t2.m02,
      t2.m10 * t1.m00 + t2.m11 * t1.m10, t2.m10 * t1.m01 + t2.m11 * t1.m11, t2.m10 * t1.m02 + t2.m11 * t1.m12 + t2.m12)
  }

  /** The linear part of a map: the same coefficients without translation. */
  function LinearPart(t: AffineTransform): AffineTransform {
    t.(m02 := 0.0, m12 := 0.0)
  }

  /** transform(AffineTransform2D): the origin goes through the whole map, the
      direction through its linear part only (no translation). */
  function Transform(l: Line, t: AffineTransform): (r: Line)
    ensures Origin(r) == Apply(t, Origin(l))
    ensures Point(r.dx, r.dy) == Apply(LinearPart(t), Point(l.dx, l.dy))
  {
    Line(l.x0 * t.m00 + l.y0 * t.m01 + t.m02,
         l.x0 * t.m10 + l.y0 * t.m11 + t.m12,
         l.dx * t.m00 + l.dy * t.m01,
         l.dx * t.m10 + l.dy * t.m11)
  }

  /** The transformed line is the image of the line, point by point. */
  lemma TransformPointAt(l: Line, t: AffineTransform, s: real)
    ensures PointAt(Transform(l, t), s) == Apply(t, PointAt(l, s))
  {
    var r := Transform(l, t);
    assert (l.x0 + l.dx * s) * t.m00 == l.x0 * t.m00 + (l.dx * t.m00) * s;
    assert (l.y0 + l.dy * s) * t.m01 == l.y0 * t.m01 + (l.dy * t.m01) * s;
    assert (l.x0 + l.dx * s) * t.m10 == l.x0 * t.m10 + (l.dx * t.m10) * s;
    assert (l.y0 + l.dy * s) * t.m11 == l.y0 * t.m11 + (l.dy * t.m11) * s;
  }

  /** The identity coefficients give back the same line. */
  lemma TransformIdentity(l: Line)
    ensures Transform(l, Identity) == l
  {
  }

  /** Transforming twice is transforming by the composed map. */
  lemma TransformCompose(l: Line, t1: AffineTransform, t2: AffineTransform)
    ensures Transform(Transform(l, t1), t2) == Transform(l, Compose(t2, t1))
  {
    var r := Transform(Transform(l, t1), t2);
    var q := Transform(l, Compose(t2, t1));
    ApplyCompose(t2, t1, Origin(l));
    ApplyCompose(LinearPart(t2), LinearPart(t1), Point(l.dx, l.dy));
    LinearPartCompose(t2, t1);
    assert Origin(r) == Origin(q);
    assert Point(r.dx, r.dy) == Point(q.dx, q.dy);
  }

  /** Applying t1 and then t2 is applying their composition. */
  lemma ApplyCompose(t2: AffineTransform, t1: AffineTransform, p: Point)
    ensures Apply(t2, Apply(t1, p)) == Apply(Compose(t2, t1), p)
  {
    ApplyComposeX(t2, t1, p);
    ApplyComposeY(t2, t1, p);
  }

  /** The x coordinate of ApplyCompose. */
  lemma ApplyComposeX(t2: AffineTransform, t1: AffineTransform, p: Point)
    ensures Apply(t2, Apply(t1, p)).x == Apply(Compose(t2, t1), p).x
  {
    var q := Apply(t1, p);
    var c := Compose(t2, t1);
    AffineRowAt(p.x, p.y, t1.m00, t1.m01, t1.m02, t1.m10, t1.m11, t1.m12, t2.m00, t2.m01, t2.m02,
                q.x, q.y, c.m00, c.m01, c.m02);
  }

  /** The y coordinate of ApplyCompose. */
  lemma ApplyComposeY(t2: AffineTransform, t1: AffineTransform, p: Point)
    ensures Apply(t2, Apply(t1, p)).y == Apply(Compose(t2, t1), p).y
  {
    var q := Apply(t1, p);
    var c := Compose(t2, t1);
    AffineRowAt(p.x, p.y, t1.m00, t1.m01, t1.m02, t1.m10, t1.m11, t1.m12, t2.m10, t2.m11, t2.m12,
                q.x, q.y, c.m10, c.m11, c.m12);
  }

  /** The linear part of a composition is the composition of the linear parts. */
  lemma LinearPartCompose(t2: AffineTransform, t1: AffineTransform)
    ensures LinearPart(Compose(t2, t1)) == Compose(LinearPart(t2), LinearPart(t1))
  {
  }

  /** AffineRow with the intermediate point (u, v) and the composed row
      (k0, k1, k2) named. */
  lemma AffineRowAt(x: real, y: real, a0: real, a1: real, a2: real, b0: real, b1: real, b2: real,
                    c0: real, c1: real, c2: real, u: real, v: real, k0: real, k1: real, k2: real)
    requires u == x * a0 + y * a1 + a2 && v == x * b0 + y * b1 + b2
    requires k0 == c0 * a0 + c1 * b0 && k1 == c0 * a1 + c1 * b1 && k2 == c0 * a2 + c1 * b2 + c2
    ensures u * c0 + v * c1 + c2 == x * k0 + y * k1 + k2
  {
    AffineRow(x, y, a0, a1, a2, b0, b1, b2, c0, c1, c2);
  }

  /** One output coordinate of two linear rows applied in turn, expanded
      term by term. */
  lemma LinearRow(x: real, y: real, a0: real, a1: real, b0: real, b1: real, c0: real, c1: real)
    ensures (x * a0 + y * a1) * c0 + (x * b0 + y * b1) * c1 == x * (c0 * a0 + c1 * b0) + y * (c0 * a1 + c1 * b1)
  {
    assert (x * a0 + y * a1) * c0 == x * a0 * c0 + y * a1 * c0;
    assert (x * b0 + y * b1) * c1 == x * b0 * c1 + y * b1 * c1;
    assert x * (c0 * a0 + c1 * b0) == x * a0 * c0 + x * b0 * c1;
    assert y * (c0 * a1 + c1 * b1) == y * a1 * c0 + y * b1 * c1;
  }

  /** One output coordinate of two affine rows applied in turn. */
  lemma AffineRow(x: real, y: real, a0: real, a1: real, a2: real, b0: real, b1: real, b2: real,
                  c0: real, c1: real, c2: real)
    ensures (x * a0 + y * a1 + a2) * c0 + (x * b0 + y * b1 + b2) * c1 + c2
         == x * (c0 * a0 + c1 * b0) + y * (c0 * a1 + c1 * b1) + (c0 * a2 + c1 * b2 + c2)
  {
    LinearRow(x, y, a0, a1, b0, b1, c0, c1);
    assert (x * a0 + y * a1 + a2) * c0 == (x * a0 + y * a1) * c0 + a2 * c0;
    assert (x * b0 + y * b1 + b2) * c1 == (x * b0 + y * b1) * c1 + b2 * c1;
  }

  /** Orthogonal projection of p on the line (getProjectedPoint): a point of
      the line such that p minus it is orthogonal to the direction. */
  function Project(l: Line, p: Point): (r: Point)
    requires HasDirection(l)
    ensures Cross(l.dx, l.dy, r.x - l.x0, r.y - l.y0) == 0.0
    ensures Dot(p.x - r.x, p.y - r.y, l.dx, l.dy) == 0.0
  {
    SqNormPositive(l);
    var n := SqNorm(l);
    var t := Dot(p.x - l.x0, p.y - l.y0, l.dx, l.dy) / n;
    var r := PointAt(l, t);
    assert Dot(p.x - r.x, p.y - r.y, l.dx, l.dy)
        == Dot(p.x - l.x0, p.y - l.y0, l.dx, l.dy) - t * n;
    r
  }

  /** A projected point projects onto itself. */
  lemma ProjectIdempotent(l: Line, p: Point)
    requires HasDirection(l)
    ensures Project(l, Project(l, p)) == Project(l, p)
  {
    SqNormPositive(l);
    var n := SqNorm(l);
    var t := Dot(p.x - l.x0, p.y - l.y0, l.dx, l.dy) / n;
    var q := Project(l, p);
    assert q == PointAt(l, t);
    assert Dot(q.x - l.x0, q.y - l.y0, l.dx, l.dy) == t * n;
    assert Dot(q.x - l.x0, q.y - l.y0, l.dx, l.dy) / n == t;
  }

  /** The distance from p to its projection is the perpendicular distance
      given by the cross product (Lagrange's identity): squared, times the
      squared norm of the direction, it is Side^2; so p is at distance |d|
      from l exactly when its projection is at distance |d| from p. */
  lemma ProjectionDistance(l: Line, p: Point)
    requires HasDirection(l)
    ensures PointSqDistance(Project(l, p), p) * SqNorm(l) == Side(l, p) * Side(l, p)
  {
    SqNormPositive(l);
    var n := SqNorm(l);
    var vx, vy := p.x - l.x0, p.y - l.y0;
    var t := Dot(vx, vy, l.dx, l.dy) / n;
    var q := Project(l, p);
    assert q == PointAt(l, t);
    var ex, ey := vx - l.dx * t, vy - l.dy * t;
    assert q.x - p.x == -ex && q.y - p.y == -ey;
    assert PointSqDistance(q, p) == ex * ex + ey * ey;
    ResidualTimesNorm(vx, vy, l.dx, l.dy, n, t);
  }

  /** Every point of a line lies at distance |d| from its parallel at d:
      its projection on the parallel is the point of the same parameter,
      at squared distance d^2. */
  lemma ProjectOnParallel(l: Line, d: real, dd: PosReal, t: real)
    requires IsNorm(dd, l.dx, l.dy)
    ensures HasDirection(Parallel(l, d, dd))
    ensures Project(Parallel(l, d, dd), PointAt(l, t)) == PointAt(Parallel(l, d, dd), t)
    ensures PointSqDistance(Project(Parallel(l, d, dd), PointAt(l, t)), PointAt(l, t)) == d * d
  {
    NormHasDirection(l, dd);
    var m, p := Parallel(l, d, dd), PointAt(l, t);
    ParallelPointOffset(l, d, dd, 0.0, t);
    OffsetDot(l.dx, l.dy, d / dd, t, p.x - m.x0, p.y - m.y0);
    ProjectAtParameter(m, p, t);
    ParallelPointDistance(l, d, dd, t, t);
  }

  /** The point of parameter s of the parallel at d and the point of
      parameter t of the line are d^2 + (s - t)^2 * |direction|^2 apart,
      squared: the offset is orthogonal to the direction. */
  lemma ParallelPointDistance(l: Line, d: real, dd: PosReal, s: real, t: real)
    requires IsNorm(dd, l.dx, l.dy)
    ensures PointSqDistance(PointAt(Parallel(l, d, dd), s), PointAt(l, t)) == d * d + (s - t) * (s - t) * SqNorm(l)
  {
    ParallelPointOffset(l, d, dd, s, t);
    OffsetDistance(PointAt(Parallel(l, d, dd), s), PointAt(l, t), l, d, dd, s - t);
  }

  /** Two points whose difference is k times the normal (dy, -dx) plus u
      times the direction (dx, dy). */
  predicate Offset(p: Point, q: Point, dx: real, dy: real, k: real, u: real) {
    p.x - q.x == dy * k + dx * u && p.y - q.y == -dx * k + dy * u
  }

  /** ParallelPointDistance for any two points so offset. */
  lemma OffsetDistance(p: Point, q: Point, l: Line, d: real, dd: PosReal, u: real)
    requires IsNorm(dd, l.dx, l.dy) && Offset(p, q, l.dx, l.dy, d / dd, u)
    ensures PointSqDistance(p, q) == d * d + u * u * SqNorm(l)
  {
    OffsetPythagoras(p.x - q.x, p.y - q.y, l.dx, l.dy, d / dd, u, SqNorm(l), d, dd);
  }

  /** An offset made of k times the normal and u times the direction, with
      k * |direction| = d, has squared length d^2 + u^2 * |direction|^2. */
  lemma OffsetPythagoras(ex: real, ey: real, dx: real, dy: real, k: real, u: real, n: real, d: real, dd: real)
    requires ex == dy * k + dx * u && ey == -dx * k + dy * u
    requires n == dx * dx + dy * dy && dd > 0.0 && dd * dd == n && k == d / dd
    ensures ex * ex + ey * ey == d * d + u * u * n
  {
    assert ex * ex + ey * ey == k * k * n + u * u * n;
    assert k * k * n == d * d by {
      assert dd * k == d;
      assert k * k * (dd * dd) == (dd * k) * (dd * k);
    }
  }

  /** The offset from the point of parameter t of the line to the point of
      parameter s of its parallel. */
  lemma ParallelPointOffset(l: Line, d: real, dd: PosReal, s: real, t: real)
    ensures Offset(PointAt(Parallel(l, d, dd), s), PointAt(l, t), l.dx, l.dy, d / dd, s - t)
  {
    MulDiv(l.dy, d, dd);
    MulDiv(l.dx, d, dd);
  }

  lemma OffsetDot(dx: real, dy: real, k: real, t: real, ex: real, ey: real)
    requires -ex == dy * k + dx * (0.0 - t) && -ey == -dx * k + dy * (0.0 - t)
    ensures Dot(ex, ey, dx, dy) == t * (dx * dx + dy * dy)
  {
  }

  /** The foot of p is the point of parameter t when p - origin has
      component t * |direction|^2 along the direction. */
  lemma ProjectAtParameter(l: Line, p: Point, t: real)
    requires HasDirection(l) && Dot(p.x - l.x0, p.y - l.y0, l.dx, l.dy) == t * SqNorm(l)
    ensures Project(l, p) == PointAt(l, t)
  {
    SqNormPositive(l);
  }

  /** With u != 0, n = |u|^2 and t = (v.u)/n: |v - t*u|^2 * n = (u x v)^2. */
  lemma ResidualTimesNorm(vx: real, vy: real, ux: real, uy: real, n: real, t: real)
    requires n == ux * ux + uy * uy && n > 0.0 && t == Dot(vx, vy, ux, uy) / n
    ensures ((vx - ux * t) * (vx - ux * t) + (vy - uy * t) * (vy - uy * t)) * n
         == Cross(ux, uy, vx, vy) * Cross(ux, uy, vx, vy)
  {
    var dt := Dot(vx, vy, ux, uy);
    var c := Cross(ux, uy, vx, vy);
    var v2 := vx * vx + vy * vy;
    ResidualSquare(vx, vy, ux, uy, t);
    Lagrange(vx, vy, ux, uy);
    ResidualOverNorm(v2, dt, c, n, t);
  }

  /** The squared length of v - t*u, expanded. */
  lemma ResidualSquare(vx: real, vy: real, ux: real, uy: real, t: real)
    ensures (vx - ux * t) * (vx - ux * t) + (vy - uy * t) * (vy - uy * t)
         == (vx * vx + vy * vy) - 2.0 * t * Dot(vx, vy, ux, uy) + t * t * (ux * ux + uy * uy)
  {
  }

  /** Lagrange's identity in the plane: dot^2 + cross^2 = |v|^2 |u|^2. */
  lemma Lagrange(vx: real, vy: real, ux: real, uy: real)
    ensures Dot(vx, vy, ux, uy) * Dot(vx, vy, ux, uy) + Cross(ux, uy, vx, vy) * Cross(ux, uy, vx, vy)
         == (vx * vx + vy * vy) * (ux * ux + uy * uy)
  {
  }

  lemma ResidualOverNorm(v2: real, dt: real, c: real, n: real, t: real)
    requires n > 0.0 && t == dt / n
    requires dt * dt + c * c == v2 * n
    ensures (v2 - 2.0 * t * dt + t * t * n) * n == c * c
  {
    assert t * n == dt;
    assert t * t * n == t * dt;
    assert t * dt * n == dt * dt;
    assert (v2 - t * dt) * n == c * c;
  }

  /** The image of a line under a circle inversion: the line itself, or a
      circle (whose centre and radius are not part of this model). */
  datatype InversionImage = SameLine(line: Line) | CircleImage

  /** transform(CircleInversion2D) as written: `d` is the distance to the
      line of the PROJECTED centre, not of the centre; the copy is returned
      when |d| < ACCURACY, compared here on squares (d is never negative). */
  function InvertAsWritten(l: Line, center: Point): InversionImage
    requires HasDirection(l)
  {
    var po := Project(l, center);
    var d2 := PointSqDistance(Project(l, po), po);
    if d2 < ACCURACY * ACCURACY then SameLine(l) else CircleImage
  }

  /** As written, every line is its own image, wherever the centre is. */
  lemma InvertAsWrittenAlwaysSameLine(l: Line, center: Point)
    requires HasDirection(l)
    ensures InvertAsWritten(l, center) == SameLine(l)
  {
    ProjectIdempotent(l, center);
  }

  /** The inversion's degenerate-case rule with the distance of the centre
      itself: the line is its own image exactly when the centre lies within
      ACCURACY of it. */
  function Invert(l: Line, center: Point): (r: InversionImage)
    requires HasDirection(l)
    ensures r == SameLine(l) <==> CloserThan(l, center, ACCURACY)
    ensures r != SameLine(l) ==> r == CircleImage
  {
    ProjectionDistance(l, center);
    SqNormPositive(l);
    var d2 := PointSqDistance(Project(l, center), center);
    ScaleLess(d2, ACCURACY * ACCURACY, SqNorm(l));
    if d2 < ACCURACY * ACCURACY then SameLine(l) else CircleImage
  }

  lemma ScaleLess(a: real, b: real, n: real)
    requires n > 0.0
    ensures a < b <==> a * n < b * n
  {
    if a < b {
      assert (b - a) * n > 0.0;
    } else {
      assert (a - b) * n >= 0.0;
    }
  }

  /** The two differ: the horizontal axis inverted about (0, 5) is a circle,
      while the code as written returns the axis. */
  lemma InversionCounterexample()
    ensures Invert(Line(0.0, 0.0, 1.0, 0.0), Point(0.0, 5.0)) == CircleImage
    ensures InvertAsWritten(Line(0.0, 0.0, 1.0, 0.0), Point(0.0, 5.0)) == SameLine(Line(0.0, 0.0, 1.0, 0.0))
  {
    var l := Line(0.0, 0.0, 1.0, 0.0);
    assert Side(l, Point(0.0, 5.0)) == 5.0;
    InvertAsWrittenAlwaysSameLine(l, Point(0.0, 5.0));
  }

  // ---------------------------------------------------------------------
  // Orientation

  const TwoPI: real := 2.0 * PI

  /** getWindingAngle(point): from the horizontal angles of the reversed and
      of the actual direction (`horizontalAngle` stands for
      Angle2D.getHorizontalAngle) and from whether the point is inside (on
      the left of) the line. */
  function WindingAngle(l: Line, inside: bool, horizontalAngle: (real, real) -> real): real {
    var angle1 := horizontalAngle(-l.dx, -l.dy);
    var angle2 := horizontalAngle(l.dx, l.dy);
    if inside then
      if angle2 > angle1 then angle2 - angle1 else TwoPI - angle1 + angle2
    else
      if angle2 > angle1 then angle2 - angle1 - TwoPI else angle2 - angle1
  }

  /** With both horizontal angles in [0, 2*PI): the winding angle is positive
      exactly for a point inside, and inside and outside differ by 2*PI. */
  lemma WindingAngleSign(l: Line, inside: bool, horizontalAngle: (real, real) -> real)
    requires 0.0 <= horizontalAngle(-l.dx, -l.dy) < TwoPI
    requires 0.0 <= horizontalAngle(l.dx, l.dy) < TwoPI
    ensures WindingAngle(l, inside, horizontalAngle) > 0.0 <==> inside
    ensures WindingAngle(l, true, horizontalAngle) - WindingAngle(l, false, horizontalAngle) == TwoPI
  {
  }

  // ---------------------------------------------------------------------
  // Equality

  /** What almostEquals and equals may be handed: a straight line or any
      other geometric object (null included). */
  datatype GeometricObject = StraightLineObject(line: Line) | OtherObject

  /** |a - b| > eps fails. */
  predicate Within(a: real, b: real, eps: real) {
    !(Abs(a - b) > eps)
  }

  /** almostEquals(obj, eps). `identical` says that obj is this very object
      (the `this == obj` shortcut), which implies it holds this line. */
  predicate AlmostEquals(l: Line, obj: GeometricObject, eps: real, identical: bool)
    requires identical ==> obj == StraightLineObject(l)
  {
    if identical then true
    else if !obj.StraightLineObject? then false
    else
      var m := obj.line;
      Within(l.x0, m.x0, eps) && Within(l.y0, m.y0, eps)
      && Within(l.dx, m.dx, eps) && Within(l.dy, m.dy, eps)
  }

  /** equals(obj): the four-component test at ACCURACY, without the
      identity shortcut. */
  predicate Equals(l: Line, obj: GeometricObject) {
    if !obj.StraightLineObject? then false
    else
      var m := obj.line;
      Within(l.x0, m.x0, ACCURACY) && Within(l.y0, m.y0, ACCURACY)
      && Within(l.dx, m.dx, ACCURACY) && Within(l.dy, m.dy, ACCURACY)
  }

  /** almostEquals holds iff the object is a line whose four components are
      each within eps of this line's (or it is this very object); equals is
      the same test at ACCURACY. */
  lemma AlmostEqualsMeaning(l: Line, obj: GeometricObject, eps: real, identical: bool)
    requires identical ==> obj == StraightLineObject(l)
    ensures AlmostEquals(l, obj, eps, identical) <==>
      identical ||
      (obj.StraightLineObject?
       && Abs(l.x0 - obj.line.x0) <= eps && Abs(l.y0 - obj.line.y0) <= eps
       && Abs(l.dx - obj.line.dx) <= eps && Abs(l.dy - obj.line.dy) <= eps)
    ensures Equals(l, obj) == AlmostEquals(l, obj, ACCURACY, identical)
  {
  }

  /** The tolerance test is symmetric, reflexive for eps >= 0, and monotone
      in eps. */
  lemma AlmostEqualsProperties(l: Line, m: Line, eps: real, eps2: real)
    ensures AlmostEquals(l, StraightLineObject(m), eps, false) == AlmostEquals(m, StraightLineObject(l), eps, false)
    ensures eps >= 0.0 ==> AlmostEquals(l, StraightLineObject(l), eps, false)
    ensures eps <= eps2 && AlmostEquals(l, StraightLineObject(m), eps, false) ==> AlmostEquals(l, StraightLineObject(m), eps2, false)
    ensures Equals(l, StraightLineObject(m)) == Equals(m, StraightLineObject(l))
    ensures Equals(l, StraightLineObject(l))
  {
    assert Abs(l.x0 - m.x0) == Abs(m.x0 - l.x0);
    assert Abs(l.y0 - m.y0) == Abs(m.y0 - l.y0);
    assert Abs(l.dx - m.dx) == Abs(m.dx - l.dx);
    assert Abs(l.dy - m.dy) == Abs(m.dy - l.dy);
  }

  // ---------------------------------------------------------------------
  // Unboundedness

  datatype Box = Box(xmin: Bound, xmax: Bound, ymin: Bound, ymax: Bound)

  /** getBoundingBox(): the tests Math.abs(..) < 0 never hold, so the box is
      always unbounded on all four sides. */
  function BoundingBox(l: Line): (r: Box)
    ensures r == Box(NegInf, PosInf, NegInf, PosInf)
  {
    if Abs(l.dx) < 0.0 then Box(Finite(l.x0), Finite(l.x0), NegInf, PosInf)
    else if Abs(l.dy) < 0.0 then Box(NegInf, PosInf, Finite(l.x0), Finite(l.y0))
    else Box(NegInf, PosInf, NegInf, PosInf)
  }

  /** isBounded(): a line is never bounded. */
  predicate IsBounded(l: Line) {
    false
  }

  /** getT0() and getT1(): the parameter range is the whole real line. */
  function T0(l: Line): Bound {
    NegInf
  }

  function T1(l: Line): Bound {
    PosInf
  }

  /** getAsPolyline(n): a line cannot be sampled into a polyline. */
  function AsPolyline(l: Line, n: int): Result<seq<Point>> {
    Failure(UnboundedShape)
  }

  /** getFirstPoint() and getLastPoint(): a line has no end points. */
  function FirstPoint(l: Line): Result<Point> {
    Failure(UnboundedShape)
  }

  function LastPoint(l: Line): Result<Point> {
    Failure(UnboundedShape)
  }

  /** appendPath(path) and getGeneralPath(): a path, modelled as the points
      it visits, cannot be drawn for an unbounded shape. */
  function AppendPath(l: Line, path: seq<Point>): Result<seq<Point>> {
    Failure(UnboundedShape)
  }

  function GeneralPath(l: Line): Result<seq<Point>> {
    Failure(UnboundedShape)
  }

  /** The unbounded-shape contract: every operation that needs end points
      or a finite path fails with UnboundedShape, the line is not bounded,
      its parameter runs from -infinity to +infinity and its box is
      unbounded. */
  lemma UnboundedContract(l: Line, n: int, path: seq<Point>)
    ensures AsPolyline(l, n) == Failure(UnboundedShape)
    ensures FirstPoint(l) == Failure(UnboundedShape) && LastPoint(l) == Failure(UnboundedShape)
    ensures AppendPath(l, path) == Failure(UnboundedShape) && GeneralPath(l) == Failure(UnboundedShape)
    ensures !IsBounded(l) && T0(l) == NegInf && T1(l) == PosInf
    ensures BoundingBox(l) == Box(NegInf, PosInf, NegInf, PosInf)
  {
  }
}
