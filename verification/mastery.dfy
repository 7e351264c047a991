/** The mastery model of the flashcard view: per-card recall grades and the
    retention percentage derived from them (components/FlashcardSet.tsx). */
module Mastery {
  import opened Wrappers
  import Percent

  /** Grades a card can receive: 0 Again, 1 Hard, 2 Good, 3 Easy. */
  const Again := 0
  const Hard := 1
  const Good := 2
  const Easy := 3

  /** A flashcard; `srsLevel` and `lastReviewed` (a millisecond timestamp) may be absent. */
  datatype Flashcard = Flashcard(front: string, back: string, srsLevel: Option<int>, lastReviewed: Option<int>)

  /** The level the retention sum reads, `c.srsLevel || 0`. */
  function LevelOf(c: Flashcard): int {
    c.srsLevel.GetOr(0)
  }

  predicate IsGrade(level: int) {
    Again <= level <= Easy
  }

  predicate AllGraded(cards: seq<Flashcard>) {
    forall i :: 0 <= i < |cards| ==> cards[i].srsLevel.Some? && IsGrade(cards[i].srsLevel.value)
  }

  /** The cards as the view holds them on entry: an absent level becomes 0 (`srsLevel ?? 0`). */
  function WithDefaultLevels(cards: seq<Flashcard>): (r: seq<Flashcard>)
    ensures |r| == |cards|
    ensures forall i :: 0 <= i < |r| ==>
      && r[i].front == cards[i].front && r[i].back == cards[i].back
      && r[i].lastReviewed == cards[i].lastReviewed
      && r[i].srsLevel.Some?
      && (cards[i].srsLevel.Some? ==> r[i].srsLevel == cards[i].srsLevel)
      && (cards[i].srsLevel.None? ==> r[i].srsLevel == Some(0))
  {
    seq(|cards|, i requires 0 <= i < |cards| => cards[i].(srsLevel := Some(LevelOf(cards[i]))))
  }

  /** Sum of the levels, `cards.reduce((acc, c) => acc + (c.srsLevel || 0), 0)`.
      Each card adds its level, so with every level a grade 0..3 the total lies
      between 0 and three per card, the best possible that serves as divisor. */
  function TotalLevel(cards: seq<Flashcard>): (r: int)
    ensures AllGraded(cards) ==> 0 <= r <= 3 * |cards|
  {
    if cards == [] then 0 else TotalLevel(cards[..|cards| - 1]) + LevelOf(cards[|cards| - 1])
  }

  /** The retention percentage: total level against the best possible, 3 per card, rounded. */
  function MasteryPercent(cards: seq<Flashcard>): (r: int)
    requires |cards| > 0
    ensures 3 * |cards| * (2 * r - 1) <= 200 * TotalLevel(cards) < 3 * |cards| * (2 * r + 1)
  {
    Percent.RoundPercent(TotalLevel(cards), 3 * |cards|)
  }

  /** With every level a valid grade, retention lies between 0 and 100. */
  lemma MasteryInRange(cards: seq<Flashcard>)
    requires |cards| > 0 && AllGraded(cards)
    ensures 0 <= MasteryPercent(cards) <= 100
  {
    Percent.RoundPercentBounds(TotalLevel(cards), 3 * |cards|);
  }

  /** Defaulting absent levels to 0 does not change the total the retention reads. */
  lemma {:induction false} DefaultLevelsKeepTotal(cards: seq<Flashcard>)
    ensures TotalLevel(WithDefaultLevels(cards)) == TotalLevel(cards)
  {
    if cards != [] {
      var init := WithDefaultLevels(cards);
      assert init[..|init| - 1] == WithDefaultLevels(cards[..|cards| - 1]);
      DefaultLevelsKeepTotal(cards[..|cards| - 1]);
    }
  }

  /** `rateCard`'s update of the card at `i`: the new level and review time; nothing else changes. */
  function Grade(cards: seq<Flashcard>, i: int, level: int, now: int): (r: seq<Flashcard>)
    requires 0 <= i < |cards|
    ensures |r| == |cards|
    ensures r[i].front == cards[i].front && r[i].back == cards[i].back
    ensures r[i].srsLevel == Some(level) && r[i].lastReviewed == Some(now)
    ensures forall j :: 0 <= j < |cards| && j != i ==> r[j] == cards[j]
  {
    cards[i := cards[i].(srsLevel := Some(level), lastReviewed := Some(now))]
  }

  /** Replacing one card moves the total by the change of that card's level. */
  lemma {:induction false} UpdateTotal(cards: seq<Flashcard>, i: int, c: Flashcard)
    requires 0 <= i < |cards|
    ensures TotalLevel(cards[i := c]) == TotalLevel(cards) - LevelOf(cards[i]) + LevelOf(c)
  {
    var r := cards[i := c];
    var n := |cards|;
    if i < n - 1 {
      assert r[..n - 1] == cards[..n - 1][i := c];
      UpdateTotal(cards[..n - 1], i, c);
    } else {
      assert r[..n - 1] == cards[..n - 1];
    }
  }

  /** Grading moves the total by exactly the change of that one card's level. */
  lemma GradeTotal(cards: seq<Flashcard>, i: int, level: int, now: int)
    requires 0 <= i < |cards|
    ensures TotalLevel(Grade(cards, i, level, now)) == TotalLevel(cards) - LevelOf(cards[i]) + level
  {
    UpdateTotal(cards, i, cards[i].(srsLevel := Some(level), lastReviewed := Some(now)));
  }

  /** A card's level after a run of grades, applied in order, with their times. */
  function GradeMany(cards: seq<Flashcard>, i: int, levels: seq<int>, times: seq<int>): (r: seq<Flashcard>)
    requires 0 <= i < |cards| && |times| == |levels|
    ensures |r| == |cards|
    decreases |levels|
  {
    if levels == [] then cards
    else GradeMany(Grade(cards, i, levels[0], times[0]), i, levels[1..], times[1..])
  }

  /** The level is always the most recent grade given: no averaging, no decay. */
  lemma {:induction false} LastGradeWins(cards: seq<Flashcard>, i: int, levels: seq<int>, times: seq<int>)
    requires 0 <= i < |cards| && |times| == |levels| && |levels| > 0
    ensures GradeMany(cards, i, levels, times)[i].srsLevel == Some(levels[|levels| - 1])
    ensures GradeMany(cards, i, levels, times)[i].lastReviewed == Some(times[|times| - 1])
    ensures forall j :: 0 <= j < |cards| && j != i ==> GradeMany(cards, i, levels, times)[j] == cards[j]
    decreases |levels|
  {
    var next := Grade(cards, i, levels[0], times[0]);
    if |levels| > 1 {
      LastGradeWins(next, i, levels[1..], times[1..]);
    }
  }

  /** Two cards, the first graded Easy: retention is round(100·3/6) = 50. */
  lemma TwoCardExample()
    ensures var cards := [Flashcard("Q1", "A1", Some(Easy), None), Flashcard("Q2", "A2", Some(Again), None)];
            MasteryPercent(cards) == 50
  {
    var cards := [Flashcard("Q1", "A1", Some(Easy), None), Flashcard("Q2", "A2", Some(Again), None)];
    assert cards[..1] == [cards[0]];
    assert cards[..1][..0] == [];
    assert TotalLevel(cards[..1]) == 3;
    assert TotalLevel(cards) == 3;
    Percent.RoundPercentUnique(3, 6, 50);
  }
}
