/** The geometry records compared by the matcher, and the absolute
    tolerance under which two numbers count as equal. Numbers are exact
    reals: the floating-point rounding of the original is not modelled. */
module Geometry {

  /** One face of a solid: its area, its axis-aligned bounding box and its
      centroid. Coordinates are sequences (normally x, y, z). */
  datatype Face = Face(area: real, bbMin: seq<real>, bbMax: seq<real>, centroid: seq<real>)

  /** A whole solid: volume, bounding box and faces in a fixed order. */
  datatype Record = Record(volume: real, bbMin: seq<real>, bbMax: seq<real>, faces: seq<Face>)

  /** The absolute tolerance, 1e-5. */
  const EPSILON: real := 0.00001

  function Abs(x: real): real
  {
    if x < 0.0 then -x else x
  }

  /** `abs(x - y) < EPSILON`: x lies in the open interval of width
      2 EPSILON around y. */
  predicate WithinTolerance(x: real, y: real): (r: bool)
    ensures r <==> y - EPSILON < x < y + EPSILON
  {
    Abs(x - y) < EPSILON
  }

  /** The tolerance accepts a number compared with itself and is symmetric. */
  lemma WithinToleranceReflexiveSymmetric(x: real, y: real)
    ensures WithinTolerance(x, x)
    ensures WithinTolerance(x, y) <==> WithinTolerance(y, x)
  {
  }

  /** The tolerance is strict: a difference of exactly EPSILON is rejected.
      Volumes 10 and 10.0000001 agree, 10 and 10.001 do not; areas 5 and
      5.00002 do not. */
  lemma ToleranceExamples()
    ensures !WithinTolerance(0.0, EPSILON)
    ensures WithinTolerance(10.0, 10.0000001)
    ensures !WithinTolerance(10.0, 10.001)
    ensures !WithinTolerance(5.0, 5.00002)
  {
  }
}
