/** `Math.round((part / whole) * 100)`, the percentage the app shows for card
    mastery, slide-generation progress and lesson progress, computed exactly
    in integers. */
module Percent {

  /** The whole percentage nearest to 100·part/whole, halves rounded up, as `Math.round` does. */
  function RoundPercent(part: int, whole: int): (r: int)
    requires whole > 0
    ensures whole * (2 * r - 1) <= 200 * part < whole * (2 * r + 1)
  {
    var q := (200 * part + whole) / (2 * whole);
    assert 2 * whole * q <= 200 * part + whole < 2 * whole * q + 2 * whole;
    q
  }

  /** Cancelling a positive factor from a strict inequality. */
  lemma CancelPositive(w: int, x: int, y: int)
    requires w > 0 && w * y < w * x
    ensures y < x
  {
    assert w * (x - y) == w * x - w * y;
  }

  /** Only one whole number is within half a point of 100·part/whole, so the contract above pins the result down. */
  lemma RoundPercentUnique(part: int, whole: int, k: int)
    requires whole > 0
    requires whole * (2 * k - 1) <= 200 * part < whole * (2 * k + 1)
    ensures RoundPercent(part, whole) == k
  {
    var r := RoundPercent(part, whole);
    CancelPositive(whole, 2 * r + 1, 2 * k - 1);
    CancelPositive(whole, 2 * k + 1, 2 * r - 1);
  }

  lemma RoundPercentBounds(part: int, whole: int)
    requires whole > 0 && 0 <= part <= whole
    ensures 0 <= RoundPercent(part, whole) <= 100
  {
    var r := RoundPercent(part, whole);
    CancelPositive(whole, 2 * r + 1, 0);
    CancelPositive(whole, 201, 2 * r - 1);
  }

  lemma RoundPercentFull(whole: int)
    requires whole > 0
    ensures RoundPercent(whole, whole) == 100
  {
    RoundPercentUnique(whole, whole, 100);
  }

  lemma RoundPercentMonotone(p: int, q: int, whole: int)
    requires whole > 0 && p <= q
    ensures RoundPercent(p, whole) <= RoundPercent(q, whole)
  {
    var a, b := RoundPercent(p, whole), RoundPercent(q, whole);
    CancelPositive(whole, 2 * b + 1, 2 * a - 1);
  }
}
