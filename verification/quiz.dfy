/** The quiz flow of components/Quiz.tsx: one question at a time, one answer
    per question, a running score and a final scorecard. */
module Quiz {
  import opened Wrappers

  datatype Question = Question(question: string, options: seq<string>, correctAnswer: int, explanation: string)

  datatype QuizState = QuizState(currentIdx: int, selected: Option<int>, showExplanation: bool, score: int, finished: bool)

  /** The state the component starts in, and the one `reset` restores. */
  const Initial := QuizState(0, None, false, 0, false)

  /** Questions answered so far: those before the current one, plus the current one once its explanation shows. */
  function Answered(s: QuizState): int {
    s.currentIdx + (if s.showExplanation then 1 else 0)
  }

  /** The states the component can reach, for a non-empty question list. The
      view reads `questions[currentIdx]` without a check, so on an empty list
      it fails at its first render; the model leaves that list out. */
  predicate Valid(qs: seq<Question>, s: QuizState) {
    && 0 <= s.currentIdx < |qs|
    && 0 <= s.score <= Answered(s)
    && (s.selected.Some? <==> s.showExplanation)
    && (s.finished ==> s.showExplanation && s.currentIdx == |qs| - 1)
  }

  lemma InitialValid(qs: seq<Question>)
    requires |qs| > 0
    ensures Valid(qs, Initial) && Answered(Initial) == 0
  {
  }

  /** `handleOptionSelect(idx)`: ignored once the explanation shows; otherwise records
      the choice, shows the explanation and scores a point for the right answer. */
  function Select(qs: seq<Question>, s: QuizState, idx: int): (r: QuizState)
    requires Valid(qs, s)
    ensures Valid(qs, r)
    ensures s.showExplanation ==> r == s
    ensures !s.showExplanation ==> r.selected == Some(idx) && r.showExplanation
    ensures r.currentIdx == s.currentIdx && r.finished == s.finished
    ensures r.score == s.score || r.score == s.score + 1
    ensures r.score == s.score + 1 <==> !s.showExplanation && idx == qs[s.currentIdx].correctAnswer
  {
    if s.showExplanation then s
    else
      var gained := if idx == qs[s.currentIdx].correctAnswer then 1 else 0;
      s.(selected := Some(idx), showExplanation := true, score := s.score + gained)
  }

  /** A question scores at most once: a second choice changes nothing. */
  lemma SelectOnce(qs: seq<Question>, s: QuizState, a: int, b: int)
    requires Valid(qs, s)
    ensures Select(qs, Select(qs, s, a), b) == Select(qs, s, a)
  {
  }

  /** `handleNext`, offered only while the explanation shows: the next question with
      nothing selected, or, after the last one, the scorecard with the index left in place. */
  function Next(qs: seq<Question>, s: QuizState): (r: QuizState)
    requires Valid(qs, s) && s.showExplanation && !s.finished
    ensures Valid(qs, r) && r.score == s.score
    ensures s.currentIdx + 1 < |qs| ==>
      r.currentIdx == s.currentIdx + 1 && r.selected.None? && !r.showExplanation && !r.finished
    ensures s.currentIdx + 1 >= |qs| ==>
      r.finished && r.currentIdx == s.currentIdx && r.selected == s.selected && r.showExplanation
  {
    if s.currentIdx + 1 < |qs| then
      s.(currentIdx := s.currentIdx + 1, selected := None, showExplanation := false)
    else
      s.(finished := true)
  }

  /** `reset` ("Retry Test"): back to the first question with no score. */
  function Reset(qs: seq<Question>, s: QuizState): (r: QuizState)
    requires Valid(qs, s)
    ensures Valid(qs, r) && Answered(r) == 0 && r.score == 0 && !r.finished
  {
    Initial
  }

  /** The scorecard's grade, `(score / questions.length) * 100`. */
  function FinalGrade(qs: seq<Question>, s: QuizState): (g: real)
    requires Valid(qs, s) && s.finished
    ensures 0.0 <= g <= 100.0
  {
    assert s.score <= |qs|;
    (s.score as real / |qs| as real) * 100.0
  }

  const EliteScholar := "Elite Scholar"
  const SteadyWorker := "Steady Worker"
  const KeepTraining := "Keep Training"

  /** The label under the scorecard: exactly one of the three, chosen by the
      80 and 50 thresholds. */
  function GradeLabel(grade: real): (r: string)
    ensures r == EliteScholar <==> grade >= 80.0
    ensures r == SteadyWorker <==> 50.0 <= grade < 80.0
    ensures r == KeepTraining <==> grade < 50.0
  {
    if grade >= 80.0 then EliteScholar else if grade >= 50.0 then SteadyWorker else KeepTraining
  }

  lemma ScaledCompare(score: int, len: int, t: real)
    requires len > 0
    ensures (score as real / len as real) * 100.0 >= t <==> 100.0 * score as real >= t * len as real
  {
    var q := score as real / len as real;
    assert q * len as real == score as real;
  }

  /** The labels in whole numbers: Elite at 80% or more, Steady at 50% or more, otherwise Keep Training. */
  lemma GradeLabelThresholds(qs: seq<Question>, s: QuizState)
    requires Valid(qs, s) && s.finished
    ensures GradeLabel(FinalGrade(qs, s)) == EliteScholar <==> 100 * s.score >= 80 * |qs|
    ensures GradeLabel(FinalGrade(qs, s)) == SteadyWorker <==> 80 * |qs| > 100 * s.score >= 50 * |qs|
    ensures GradeLabel(FinalGrade(qs, s)) == KeepTraining <==> 100 * s.score < 50 * |qs|
  {
    ScaledCompare(s.score, |qs|, 80.0);
    ScaledCompare(s.score, |qs|, 50.0);
  }

  // ---- whole quizzes ----

  /** The controls the view offers: an option button, the next button while the
      explanation shows, the retry button on the scorecard. A control that is not
      on screen does nothing. */
  datatype Action = Choose(option: int) | Advance | Retry

  function Step(qs: seq<Question>, s: QuizState, a: Action): (r: QuizState)
    requires Valid(qs, s)
    ensures Valid(qs, r)
  {
    match a
    case Choose(option) => if s.finished then s else Select(qs, s, option)
    case Advance => if s.showExplanation && !s.finished then Next(qs, s) else s
    case Retry => if s.finished then Reset(qs, s) else s
  }

  function Run(qs: seq<Question>, s: QuizState, actions: seq<Action>): (r: QuizState)
    requires Valid(qs, s)
    ensures Valid(qs, r)
    decreases |actions|
  {
    if actions == [] then s else Run(qs, Step(qs, s, actions[0]), actions[1..])
  }

  /** However the quiz is played, the score never passes the number of questions
      answered, nor the number of questions, and each step adds at most one point. */
  lemma {:induction false} ScoreBounded(qs: seq<Question>, actions: seq<Action>)
    requires |qs| > 0
    ensures Valid(qs, Initial)
    ensures 0 <= Run(qs, Initial, actions).score <= Answered(Run(qs, Initial, actions)) <= |qs|
  {
  }
}
