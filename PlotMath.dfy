/** Numeric helpers shared by the plot-space engine: the constants of the
    flux plot, std::min / std::max as the C++ library defines them, the
    clamp applied before every bin index, and the floor that turns a
    fraction of a range into a bin. */
module PlotMath {

  datatype Option<T> = None | Some(value: T)

  /** A point in space (sp_point). */
  datatype Point3 = Point3(x: real, y: real, z: real)

  /** The floating-point library calls whose internals are not modelled:
      atan2, called with its two arguments in the order the binner passes
      them, and Toolbox::rotation(angle, axis, point), which rotates a point
      about axis 0 (x), 1 (y) or 2 (z). */
  datatype Maths = Maths(atan2: (real, real) -> real, rotation: (real, int, Point3) -> Point3)

  /** pi as the shortest decimal that rounds to the double-precision value
      (that decimal, not the double's exact binary value). */
  const PI: real := 3.141592653589793
  const R2D: real := 180.0 / PI
  const D2R: real := PI / 180.0

  /** The upper clamp that keeps a fraction of exactly 1 out of the bin
      one past the last. */
  const UPPER_FRACTION: real := 0.9999

  /** std::min(a, b): b when b < a, otherwise a. */
  function Min(a: real, b: real): (r: real)
    ensures r <= a && r <= b
    ensures r == a || r == b
  {
    if b < a then b else a
  }

  /** std::max(a, b): b when a < b, otherwise a. */
  function Max(a: real, b: real): (r: real)
    ensures r >= a && r >= b
    ensures r == a || r == b
  {
    if a < b then b else a
  }

  /** max(0., min(0.9999, num / den)) in IEEE arithmetic. A zero
      denominator yields -inf for a negative numerator (clamped to 0) and
      +inf or NaN otherwise; std::min keeps its first argument, 0.9999,
      for both. */
  function ClampedFraction(num: real, den: real): (f: real)
    ensures 0.0 <= f <= UPPER_FRACTION
    ensures den == 0.0 ==> f == (if num < 0.0 then 0.0 else UPPER_FRACTION)
    ensures den != 0.0 && 0.0 <= num / den <= UPPER_FRACTION ==> f == num / den
    ensures den != 0.0 && num / den < 0.0 ==> f == 0.0
    ensures den != 0.0 && num / den > UPPER_FRACTION ==> f == UPPER_FRACTION
  {
    if den == 0.0 then (if num < 0.0 then 0.0 else UPPER_FRACTION)
    else Max(0.0, Min(UPPER_FRACTION, num / den))
  }

  lemma MulNonNeg(a: real, b: real)
    requires a >= 0.0 && b >= 0.0
    ensures a * b >= 0.0
  {
  }

  /** (int)floor(f * n): the bin, out of n, that holds fraction f of a range. */
  function ScaledFloor(f: real, n: nat): (k: int)
    ensures k as real <= f * n as real < k as real + 1.0
    ensures 0.0 <= f < 1.0 && n > 0 ==> 0 <= k < n
  {
    var v := f * n as real;
    assert 0.0 <= f < 1.0 && n > 0 ==> 0.0 <= v < n as real by {
      if 0.0 <= f < 1.0 && n > 0 {
        var g := 1.0 - f;
        assert g > 0.0;
        MulNonNeg(f, n as real);
        assert v == n as real - g * n as real;
        assert g * n as real > 0.0;
      }
    }
    v.Floor
  }

  /** A coordinate exactly at the top of its range (num == den) is clamped
      to 0.9999 and, for up to 10000 bins, lands in the last bin n - 1,
      never in bin n. */
  lemma UpperBoundLandsInLastBin(num: real, den: real, n: nat)
    requires den != 0.0 && num == den
    requires 0 < n <= 10000
    ensures ScaledFloor(ClampedFraction(num, den), n) == n - 1
  {
    assert num / den == 1.0;
    assert ClampedFraction(num, den) == UPPER_FRACTION;
    var v := UPPER_FRACTION * n as real;
    assert (n - 1) as real <= v < n as real;
  }
}
