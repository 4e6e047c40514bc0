/** Shared numeric helpers: the constant `PI` and the conversion of angles
    from degrees to radians. */
module Common {
  /** `std::f64::consts::PI`, the double closest to pi, written out exactly
      (884279719003555 / 2^48). */
  const PI: real := 3.141592653589793115997963468544185161590576171875

  /** `degrees_to_radians`: `degrees * PI / 180`. The result is the same
      fraction of `PI` as `degrees` is of a half-turn. */
  function DegreesToRadians(degrees: real): (r: real)
    ensures r / PI == degrees / 180.0
  {
    degrees * PI / 180.0
  }

  /** Zero degrees is zero radians, a right angle is `PI / 2`, a straight
      angle is `PI` and a full turn is `2 * PI`. */
  lemma ConversionExamples()
    ensures DegreesToRadians(0.0) == 0.0
    ensures DegreesToRadians(180.0) == PI
    ensures DegreesToRadians(90.0) == PI / 2.0
    ensures DegreesToRadians(360.0) == 2.0 * PI
  {
  }

  /** The conversion is additive. */
  lemma ConversionAdditive(a: real, b: real)
    ensures DegreesToRadians(a + b) == DegreesToRadians(a) + DegreesToRadians(b)
  {
  }

  /** The conversion is strictly increasing, since `PI > 0`. */
  lemma ConversionIncreasing(a: real, b: real)
    ensures a < b <==> DegreesToRadians(a) < DegreesToRadians(b)
  {
  }
}
