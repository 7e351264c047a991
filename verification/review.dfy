/** The flashcard review session of components/FlashcardSet.tsx: a fixed deck,
    a current position that wraps around, a flip flag, grading with
    auto-advance on a passing grade, and shuffling. The 300 ms and 400 ms
    animation delays are not modelled: every transition takes effect at once. */
module Review {
  import opened Wrappers
  import opened Mastery

  datatype Session = Session(cards: seq<Flashcard>, index: int, flipped: bool)

  /** The position always names a card; the view renders nothing for an empty deck. */
  predicate Valid(s: Session) {
    0 <= s.index < |s.cards|
  }

  /** The session as the view opens it: levels defaulted, first card, front side up. */
  function Start(cards: seq<Flashcard>): (s: Session)
    ensures Valid(s) <==> |cards| > 0
    ensures s.cards == WithDefaultLevels(cards) && s.index == 0 && !s.flipped
  {
    Session(WithDefaultLevels(cards), 0, false)
  }

  /** Clicking the card turns it over; position and cards stay. */
  function Flip(s: Session): (r: Session)
    ensures r.flipped != s.flipped
    ensures r.cards == s.cards && r.index == s.index
  {
    s.(flipped := !s.flipped)
  }

  /** `handleNext`: front side up and one card on, wrapping after the last. */
  function Next(s: Session): (r: Session)
    requires Valid(s)
    ensures Valid(r) && r.cards == s.cards && !r.flipped
    ensures r.index == if s.index + 1 < |s.cards| then s.index + 1 else 0
  {
    Session(s.cards, (s.index + 1) % |s.cards|, false)
  }

  /** `handlePrev`: front side up and one card back, wrapping before the first.
      Both operands of `%` are non-negative here, so JavaScript's truncating
      remainder and Dafny's agree. */
  function Prev(s: Session): (r: Session)
    requires Valid(s)
    ensures Valid(r) && r.cards == s.cards && !r.flipped
    ensures r.index == if s.index > 0 then s.index - 1 else |s.cards| - 1
  {
    Session(s.cards, (s.index - 1 + |s.cards|) % |s.cards|, false)
  }

  /** Next and Prev undo each other, up to the flip flag both clear. */
  lemma NextPrevInverse(s: Session)
    requires Valid(s)
    ensures Prev(Next(s)) == s.(flipped := false)
    ensures Next(Prev(s)) == s.(flipped := false)
  {
  }

  function NextTimes(s: Session, k: nat): (r: Session)
    requires Valid(s)
    ensures Valid(r) && r.cards == s.cards
  {
    if k == 0 then s else Next(NextTimes(s, k - 1))
  }

  /** Up to one full round, k presses of next move the position k places, wrapping once past the end. */
  lemma {:induction false} NextTimesIndex(s: Session, k: nat)
    requires Valid(s) && k <= |s.cards|
    ensures NextTimes(s, k).index == if s.index + k < |s.cards| then s.index + k else s.index + k - |s.cards|
  {
    if k > 0 {
      NextTimesIndex(s, k - 1);
    }
  }

  /** Going once round the whole deck returns to the same card. */
  lemma NextRoundTrip(s: Session)
    requires Valid(s)
    ensures NextTimes(s, |s.cards|).index == s.index
  {
    NextTimesIndex(s, |s.cards|);
  }

  /** `rateCard(level)`: grade the current card, then move on only for Good or Easy. */
  function Rate(s: Session, level: int, now: int): (r: Session)
    requires Valid(s) && IsGrade(level)
    ensures Valid(r)
    ensures r.cards == Grade(s.cards, s.index, level, now)
    ensures level >= Good ==> r.index == Next(s).index && !r.flipped
    ensures level < Good ==> r.index == s.index && r.flipped == s.flipped
  {
    var graded := s.(cards := Grade(s.cards, s.index, level, now));
    if level >= Good then Next(graded) else graded
  }

  /** With more than one card, rating moves the position exactly when the grade is Good or Easy. */
  lemma RateAdvancesIffPassing(s: Session, level: int, now: int)
    requires Valid(s) && IsGrade(level) && |s.cards| > 1
    ensures Rate(s, level, now).index != s.index <==> level >= Good
  {
  }

  /** Two cards, the first graded Easy: the view moves to the second card and shows 50% retention. */
  lemma RateExample(now: int)
    ensures var s := Start([Flashcard("Q1", "A1", None, None), Flashcard("Q2", "A2", None, None)]);
            var r := Rate(s, Easy, now);
            r.index == 1 && MasteryPercent(r.cards) == 50
  {
    var s := Start([Flashcard("Q1", "A1", None, None), Flashcard("Q2", "A2", None, None)]);
    var r := Rate(s, Easy, now);
    var cards := r.cards;
    assert LevelOf(cards[0]) == 3;
    assert LevelOf(cards[1]) == LevelOf(s.cards[1]) == 0;
    assert cards[..1][..0] == [];
    assert TotalLevel(cards[..1]) == 3;
    assert TotalLevel(cards) == 3;
    Percent.RoundPercentUnique(3, 6, 50);
  }

  // ---- shuffling ----

  predicate SwapsInRange(swaps: seq<(int, int)>, n: int) {
    forall k :: 0 <= k < |swaps| ==> 0 <= swaps[k].0 < n && 0 <= swaps[k].1 < n
  }

  /** Exchange the cards at two positions. */
  function Swap(cards: seq<Flashcard>, i: int, j: int): (r: seq<Flashcard>)
    requires 0 <= i < |cards| && 0 <= j < |cards|
    ensures |r| == |cards| && multiset(r) == multiset(cards)
  {
    cards[i := cards[j]][j := cards[i]]
  }

  /** The random reordering, given as the exchanges the random source chose. */
  function ApplySwaps(cards: seq<Flashcard>, swaps: seq<(int, int)>): (r: seq<Flashcard>)
    requires SwapsInRange(swaps, |cards|)
    ensures |r| == |cards| && multiset(r) == multiset(cards)
    decreases |swaps|
  {
    if swaps == [] then cards
    else ApplySwaps(Swap(cards, swaps[0].0, swaps[0].1), swaps[1..])
  }

  /** `shuffleDeck`: the same cards (levels travelling with them) in a new order, first card, front up. */
  function Shuffle(s: Session, swaps: seq<(int, int)>): (r: Session)
    requires Valid(s) && SwapsInRange(swaps, |s.cards|)
    ensures Valid(r) && r.index == 0 && !r.flipped
    ensures multiset(r.cards) == multiset(s.cards)
  {
    Session(ApplySwaps(s.cards, swaps), 0, false)
  }

  /** Exchanges below the last position leave the last card where it is. */
  lemma {:induction false} ApplySwapsKeepsLast(cards: seq<Flashcard>, c: Flashcard, swaps: seq<(int, int)>)
    requires SwapsInRange(swaps, |cards|)
    ensures ApplySwaps(cards + [c], swaps) == ApplySwaps(cards, swaps) + [c]
    decreases |swaps|
  {
    if swaps != [] {
      var (i, j) := swaps[0];
      assert Swap(cards + [c], i, j) == Swap(cards, i, j) + [c];
      ApplySwapsKeepsLast(Swap(cards, i, j), c, swaps[1..]);
    }
  }

  /** Dropping an equal last element from two sequences with equal multisets keeps the multisets equal. */
  lemma MultisetDropLast(a: seq<Flashcard>, b: seq<Flashcard>)
    requires |a| > 0 && |a| == |b| && multiset(a) == multiset(b) && a[|a| - 1] == b[|b| - 1]
    ensures multiset(a[..|a| - 1]) == multiset(b[..|b| - 1])
  {
    var x := a[|a| - 1];
    assert multiset(a) == multiset(a[..|a| - 1]) + multiset{x} by {
      assert a == a[..|a| - 1] + [x];
    }
    assert multiset(b) == multiset(b[..|b| - 1]) + multiset{x} by {
      assert b == b[..|b| - 1] + [x];
    }
    assert multiset(a[..|a| - 1]) == multiset(a) - multiset{x};
    assert multiset(b[..|b| - 1]) == multiset(b) - multiset{x};
  }

  /** Applying a first exchange and then the rest. */
  lemma ApplySwapsFirst(cards: seq<Flashcard>, i: int, j: int, rest: seq<(int, int)>)
    requires 0 <= i < |cards| && 0 <= j < |cards| && SwapsInRange(rest, |cards|)
    ensures SwapsInRange([(i, j)] + rest, |cards|)
    ensures ApplySwaps(cards, [(i, j)] + rest) == ApplySwaps(Swap(cards, i, j), rest)
  {
    var swaps := [(i, j)] + rest;
    assert swaps[0] == (i, j);
    assert swaps[1..] == rest;
  }

  lemma SplitLast(a: seq<Flashcard>)
    requires |a| > 0
    ensures a == a[..|a| - 1] + [a[|a| - 1]]
  {
  }

  lemma PositionOf(cards: seq<Flashcard>, x: Flashcard) returns (j: int)
    requires x in multiset(cards)
    ensures 0 <= j < |cards| && cards[j] == x
  {
    assert x in cards;
    j :| 0 <= j < |cards| && cards[j] == x;
  }

  /** One exchange bringing the wanted last card into place, then exchanges that order the rest. */
  lemma {:induction false} LastIntoPlace(cards: seq<Flashcard>, target: seq<Flashcard>, j: int, rest: seq<(int, int)>)
    requires |cards| == |target| > 0 && 0 <= j < |cards| && cards[j] == target[|target| - 1]
    requires SwapsInRange(rest, |cards| - 1)
    requires ApplySwaps(Swap(cards, j, |cards| - 1)[..|cards| - 1], rest) == target[..|target| - 1]
    ensures SwapsInRange([(j, |cards| - 1)] + rest, |cards|)
    ensures ApplySwaps(cards, [(j, |cards| - 1)] + rest) == target
  {
    var n := |cards|;
    var moved := Swap(cards, j, n - 1);
    var front := moved[..n - 1];
    var last := target[n - 1];
    SplitLast(moved);
    SplitLast(target);
    ApplySwapsKeepsLast(front, last, rest);
    ApplySwapsFirst(cards, j, n - 1, rest);
    calc {
      ApplySwaps(cards, [(j, n - 1)] + rest);
      ApplySwaps(moved, rest);
      ApplySwaps(front + [last], rest);
      ApplySwaps(front, rest) + [last];
      target;
    }
  }

  lemma SameLength(a: seq<Flashcard>, b: seq<Flashcard>)
    requires multiset(a) == multiset(b)
    ensures |a| == |b|
  {
    assert |multiset(a)| == |multiset(b)|;
  }

  /** After exchanging the wanted last card into place, the others are a reordering of the rest of the target. */
  lemma FrontAfterSwap(cards: seq<Flashcard>, target: seq<Flashcard>, j: int) returns (front: seq<Flashcard>)
    requires multiset(cards) == multiset(target) && |cards| == |target| > 0
    requires 0 <= j < |cards| && cards[j] == target[|target| - 1]
    ensures front == Swap(cards, j, |cards| - 1)[..|cards| - 1]
    ensures multiset(front) == multiset(target[..|target| - 1])
  {
    var moved := Swap(cards, j, |cards| - 1);
    MultisetDropLast(moved, target);
    front := moved[..|cards| - 1];
  }

  /** Every reordering of the deck is a possible shuffle outcome: the model does not exclude any order. */
  lemma {:induction false} EveryOrderReachable(cards: seq<Flashcard>, target: seq<Flashcard>)
    returns (swaps: seq<(int, int)>)
    requires multiset(cards) == multiset(target)
    ensures SwapsInRange(swaps, |cards|) && ApplySwaps(cards, swaps) == target
    decreases |cards|
  {
    SameLength(cards, target);
    if cards == [] {
      return [];
    }
    var n := |cards|;
    var j := PositionOf(cards, target[n - 1]);
    var front := FrontAfterSwap(cards, target, j);
    var rest := EveryOrderReachable(front, target[..n - 1]);
    LastIntoPlace(cards, target, j, rest);
    swaps := [(j, n - 1)] + rest;
  }

  /** Exchanging two cards does not change the level total. */
  lemma SwapKeepsTotal(cards: seq<Flashcard>, i: int, j: int)
    requires 0 <= i < |cards| && 0 <= j < |cards|
    ensures TotalLevel(Swap(cards, i, j)) == TotalLevel(cards)
  {
    UpdateTotal(cards, i, cards[j]);
    UpdateTotal(cards[i := cards[j]], j, cards[i]);
  }

  /** Shuffling never changes the retention percentage. */
  lemma {:induction false} ShuffleKeepsTotal(cards: seq<Flashcard>, swaps: seq<(int, int)>)
    requires SwapsInRange(swaps, |cards|)
    ensures TotalLevel(ApplySwaps(cards, swaps)) == TotalLevel(cards)
    decreases |swaps|
  {
    if swaps != [] {
      SwapKeepsTotal(cards, swaps[0].0, swaps[0].1);
      ShuffleKeepsTotal(Swap(cards, swaps[0].0, swaps[0].1), swaps[1..]);
    }
  }

  // ---- whole sessions ----

  datatype Action = FlipCard | NextCard | PrevCard | RateCard(level: int, now: int) | ShuffleDeck(swaps: seq<(int, int)>)

  /** The buttons of the view; a rating outside the four grades or a bad exchange is not offered and changes nothing. */
  function Step(s: Session, a: Action): (r: Session)
    requires Valid(s)
    ensures Valid(r) && |r.cards| == |s.cards|
  {
    match a
    case FlipCard => Flip(s)
    case NextCard => Next(s)
    case PrevCard => Prev(s)
    case RateCard(level, now) => if IsGrade(level) then Rate(s, level, now) else s
    case ShuffleDeck(swaps) => if SwapsInRange(swaps, |s.cards|) then Shuffle(s, swaps) else s
  }

  function Run(s: Session, actions: seq<Action>): (r: Session)
    requires Valid(s)
    ensures Valid(r) && |r.cards| == |s.cards|
    decreases |actions|
  {
    if actions == [] then s else Run(Step(s, actions[0]), actions[1..])
  }

  /** Whatever the user does, every level stays a valid grade, so retention stays within 0..100. */
  lemma {:induction false} RunKeepsMasteryInRange(s: Session, actions: seq<Action>)
    requires Valid(s) && AllGraded(s.cards)
    ensures AllGraded(Run(s, actions).cards)
    ensures 0 <= MasteryPercent(Run(s, actions).cards) <= 100
    decreases |actions|
  {
    if actions == [] {
      MasteryInRange(s.cards);
    } else {
      match actions[0] {
        case ShuffleDeck(swaps) =>
          if SwapsInRange(swaps, |s.cards|) {
            ShuffleKeepsGraded(s.cards, swaps);
          }
        case _ =>
      }
      RunKeepsMasteryInRange(Step(s, actions[0]), actions[1..]);
    }
  }

  lemma {:induction false} ShuffleKeepsGraded(cards: seq<Flashcard>, swaps: seq<(int, int)>)
    requires AllGraded(cards) && SwapsInRange(swaps, |cards|)
    ensures AllGraded(ApplySwaps(cards, swaps))
    decreases |swaps|
  {
    if swaps != [] {
      ShuffleKeepsGraded(Swap(cards, swaps[0].0, swaps[0].1), swaps[1..]);
    }
  }
}
