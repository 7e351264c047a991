/** Clamped navigation through the slides of a deck and the lessons of a
    curriculum in App.tsx. Unlike the flashcards, neither wraps around: the
    back button stops at the first item and the forward button at the last. */
module Navigation {
  import opened Percent

  predicate InRange(i: int, len: int) {
    0 <= i < len
  }

  /** The back button: `Math.max(0, i - 1)`. */
  function StepBack(i: int): (r: int)
    ensures r >= 0
    ensures i > 0 ==> r == i - 1
    ensures i <= 0 ==> r == 0
  {
    if i - 1 > 0 then i - 1 else 0
  }

  /** The forward button: `Math.min(len - 1, i + 1)`. The button is only shown
      for a non-empty list, so `len >= 1`. */
  function StepForward(i: int, len: int): (r: int)
    requires len >= 1
    ensures r <= len - 1
    ensures i < len - 1 ==> r == i + 1
    ensures i >= len - 1 ==> r == len - 1
  {
    if len - 1 < i + 1 then len - 1 else i + 1
  }

  /** Both buttons keep a valid position valid. */
  lemma StepsStayInRange(i: int, len: int)
    requires InRange(i, len)
    ensures InRange(StepBack(i), len) && InRange(StepForward(i, len), len)
  {
  }

  /** Each button moves exactly when it is enabled: back unless at the first
      item, forward unless at the last. */
  lemma StepMovesIffEnabled(i: int, len: int)
    requires InRange(i, len)
    ensures StepBack(i) != i <==> i != 0
    ensures StepForward(i, len) != i <==> i != len - 1
  {
  }

  /** Away from the ends, back and forward undo one another. */
  lemma BackForwardInverse(i: int, len: int)
    requires InRange(i, len)
    ensures i < len - 1 ==> StepBack(StepForward(i, len)) == i
    ensures i > 0 ==> StepForward(StepBack(i), len) == i
  {
  }

  function ForwardTimes(i: int, len: int, k: nat): (r: int)
    requires len >= 1
    ensures k > 0 ==> r <= len - 1
  {
    if k == 0 then i else StepForward(ForwardTimes(i, len, k - 1), len)
  }

  function BackTimes(i: int, k: nat): (r: int)
    ensures k > 0 ==> r >= 0
  {
    if k == 0 then i else StepBack(BackTimes(i, k - 1))
  }

  /** Pressing forward k times moves k places, stopping at the last item. */
  lemma {:induction false} ForwardTimesClamps(i: int, len: int, k: nat)
    requires InRange(i, len)
    ensures ForwardTimes(i, len, k) == if i + k < len then i + k else len - 1
  {
    if k > 0 {
      ForwardTimesClamps(i, len, k - 1);
    }
  }

  /** Pressing back k times moves k places, stopping at the first item. */
  lemma {:induction false} BackTimesClamps(i: int, k: nat)
    requires i >= 0
    ensures BackTimes(i, k) == if i - k > 0 then i - k else 0
  {
    if k > 0 {
      BackTimesClamps(i, k - 1);
    }
  }

  /** The lesson progress figure: `Math.round((i + 1) / len * 100)`, the
      whole percentage nearest to the share of lessons reached, halves rounded
      up. */
  function LessonProgress(i: int, len: int): (r: int)
    requires InRange(i, len)
    ensures len * (2 * r - 1) <= 200 * (i + 1) < len * (2 * r + 1)
    ensures 0 <= r <= 100
    ensures i == len - 1 ==> r == 100
  {
    RoundPercentBounds(i + 1, len);
    RoundPercentFull(len);
    RoundPercent(i + 1, len)
  }

  /** Moving forward through the lessons never lowers the progress figure,
      and moving back never raises it. */
  lemma ProgressFollowsSteps(i: int, len: int)
    requires InRange(i, len)
    ensures LessonProgress(i, len) <= LessonProgress(StepForward(i, len), len)
    ensures LessonProgress(StepBack(i), len) <= LessonProgress(i, len)
  {
    StepsStayInRange(i, len);
    RoundPercentMonotone(i + 1, StepForward(i, len) + 1, len);
    RoundPercentMonotone(StepBack(i) + 1, i + 1, len);
  }
}
