/** Shared vocabulary of the 2D geometry kernel: points, the tolerance
    constant, error kinds and extended reals. Coordinates are exact reals;
    IEEE rounding is not modelled. */
module Geom2D {

  /** The absolute tolerance of the library (Shape2D.ACCURACY = 1e-12). */
  const ACCURACY: real := 0.000000000001

  /** Math.PI: 3.141592653589793 is the shortest decimal that rounds to that double. */
  const PI: real := 3.141592653589793

  /** Strictly positive reals: what a square root of a non-zero sum of squares yields. */
  type PosReal = r: real | r > 0.0 witness 1.0

  datatype Point = Point(x: real, y: real)

  /** Squared Euclidean distance between two points. */
  function PointSqDistance(p: Point, q: Point): real {
    (p.x - q.x) * (p.x - q.x) + (p.y - q.y) * (p.y - q.y)
  }

  datatype Option<+T> = None | Some(value: T)

  /** The ways an operation of the kernel can fail.
      - UnboundedShape: UnboundedShape2DException, thrown by operations that
        need a bounded curve;
      - NullPointer: a null point was dereferenced: the intersection of two
        parallel lines, or the end point of an empty polyline;
      - NotANumber: the computed coordinates are NaN (a division 0/0). */
  datatype Error = UnboundedShape | NullPointer | NotANumber

  datatype Result<+T> = Success(value: T) | Failure(error: Error)

  /** Extended reals, for curve parameters and bounding boxes. */
  datatype Bound = NegInf | Finite(v: real) | PosInf

  function Abs(x: real): (r: real)
    ensures r >= 0.0 && (r == x || r == -x)
  {
    if x < 0.0 then -x else x
  }
}
