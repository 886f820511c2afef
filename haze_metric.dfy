/** The final step of `calculate_haze_reduction`: the reduction ratio, a
    percentage, is clamped to [0, 100] by Python's `max(0, min(100, x))`.
    The mean dark-channel values that produce the ratio are not modelled. */
module HazeMetric {

  /** `min(100, x)` then `max(0, ...)`, over exact reals. */
  function ClampPercentage(x: real): (r: real)
    ensures 0.0 <= r <= 100.0
    ensures 0.0 <= x <= 100.0 ==> r == x
    ensures x < 0.0 ==> r == 0.0
    ensures x > 100.0 ==> r == 100.0
  {
    var low := if x < 100.0 then x else 100.0;
    if low > 0.0 then low else 0.0
  }

  /** A percentage already in range is left alone: clamping twice is clamping once. */
  lemma ClampPercentageIdempotent(x: real)
    ensures ClampPercentage(ClampPercentage(x)) == ClampPercentage(x)
  {
  }

  /** A larger ratio never reports a smaller reduction. */
  lemma ClampPercentageMonotone(x: real, y: real)
    requires x <= y
    ensures ClampPercentage(x) <= ClampPercentage(y)
  {
  }
}
