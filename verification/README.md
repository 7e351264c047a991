# BeeStudy study sessions in Dafny

BeeStudy is a React study app. It turns uploaded material into notes,
flashcards, a quiz, a lesson-by-lesson curriculum and slide decks. This project
models the state machines and pure computations underneath its screens. It
states and proves their properties. The modelled parts are:

- the **flashcard review session** (`components/FlashcardSet.tsx`):
  - levels that default to 0;
  - the retention percentage;
  - next and previous with wrap-around;
  - rating with an automatic advance on Good or Easy;
  - shuffle and flip;
- the **quiz** (`components/Quiz.tsx`):
  - answering each question once;
  - the score bound;
  - next, reset;
  - the final grade and its label;
- the **slide studio and helpers of `App.tsx`**:
  - assembling the topic list;
  - deck generation (an outline, then one slide per title, with a progress
    figure);
  - adding one slide;
  - opening, closing and deleting library decks;
  - clamped slide and lesson navigation with the lesson progress figure;
  - the `formatTime` MM:SS display;
  - the 25-minute focus timer.

Every handler is a pure function, or a method where the source loops, over an
immutable state. The two AI calls become oracle parameters that return a
result or `None` for a failure: `OutlineOracle` for the outline and
`SlideOracle` for one slide. The random id and `Date.now()` become parameters
as well.

Which library deck an added slide is saved into is decided by array identity
in the source (`d.slides === slides`). The model makes that identity an
explicit field, `linked` of the studio state `Studio.State`:
- `None` after a generation, because the display holds a copy;
- the deck's id after opening it;
- kept by an add, because both sides then hold the new array.

The predicate `Studio.Synced` states what identity guarantees: the linked deck
holds exactly the displayed slides. Every handler keeps that predicate.

A successful generation leaves an earlier error message in place, as the
source does: `handleGenerateSlides` never calls `setError(null)`.

Modules and files:

| file | module | contents |
|---|---|---|
| wrappers.dfy | `Wrappers` | `Option` |
| text.dfy | `Text` | `trim`, `toString` and `padStart` on the strings the app uses |
| percent.dfy | `Percent` | `Math.round(p / q * 100)` in integers |
| mastery.dfy | `Mastery` | flashcards, levels, retention, grading |
| review.dfy | `Review` | the flashcard session |
| quiz.dfy | `Quiz` | the quiz session |
| focus_timer.dfy | `FocusTimer` | `formatTime` and the focus timer |
| navigation.dfy | `Navigation` | clamped slide and lesson steps, lesson progress |
| slides.dfy | `Slides` | slides, decks, topics, deck titles, the library edits |
| studio.dfy | `Studio` | the slide studio handlers |

## Model

| member | source | states |
|---|---|---|
| `Text.Trim` | App.tsx:331 | the trimmed topic has no white space at either end and is no longer than the input |
| `Text.TrimIsInfix` | App.tsx:331 | the trimmed topic is a contiguous piece of the input with only white space cut off on each side |
| `Text.TrimEmptyIffBlank` | App.tsx:358 | `s.trim()` is empty (falsy) exactly when every character of `s` is white space |
| `Text.TrimIdempotent` | App.tsx:331 | trimming a trimmed topic changes nothing |
| `Text.NatToString` | App.tsx:86 | `toString` of a whole number below 10^21 is a non-empty run of decimal digits with no leading zero; it is one digit exactly below 10 |
| `Text.ParseNatToString` | App.tsx:86 | reading the digits of `n.toString()` back gives `n` |
| `Text.PadStart` | App.tsx:86 | `padStart(width, '0')` keeps the string as a suffix and fills up to `width` with the pad character only |
| `Text.ParseZeroPadded` | App.tsx:86 | leading zeros from `padStart` do not change the value the digits denote |
| `Percent.RoundPercent` | components/FlashcardSet.tsx:37 | the integer result r is the nearest whole percentage of part/whole, with halves rounded up: `whole·(2r−1) ≤ 200·part < whole·(2r+1)` |
| `Percent.RoundPercentUnique` | components/FlashcardSet.tsx:37 | any integer that meets that rounding condition is the result, so the integer formula agrees with `Math.round` on exact values |
| `Percent.RoundPercentBounds` | App.tsx:345 | a part between 0 and the whole gives a percentage between 0 and 100 |
| `Percent.RoundPercentFull` | App.tsx:345 | the whole gives exactly 100 |
| `Percent.RoundPercentMonotone` | App.tsx:529 | a larger part never gives a smaller percentage |
| `Mastery.WithDefaultLevels` | components/FlashcardSet.tsx:29 | the deck on entry has the same length; each card keeps front, back, review time and any level it had; an absent level becomes 0 |
| `Mastery.DefaultLevelsKeepTotal` | components/FlashcardSet.tsx:29-35 | defaulting absent levels does not change the level total the retention reads |
| `Mastery.MasteryPercent` | components/FlashcardSet.tsx:34-38 | retention is the level total over three points per card, as a rounded percentage |
| `Mastery.TotalLevel` | components/FlashcardSet.tsx:35-36 | the level total that `Mastery.MasteryPercent` divides: with every level a grade 0..3, it lies between 0 and three times the number of cards, the divisor |
| `Mastery.MasteryInRange` | components/FlashcardSet.tsx:34-38 | with every level a grade, retention lies in 0..100 |
| `Mastery.Grade` | components/FlashcardSet.tsx:58-61 | grading changes only the card at the current index: new level, review time `now`, same front and back; every other card and the length stay |
| `Mastery.GradeTotal` | components/FlashcardSet.tsx:58-61 | grading moves the level total by exactly the change of that card's level |
| `Mastery.LastGradeWins` | components/FlashcardSet.tsx:58-61 | after several gradings of one card, its level and review time are those of the last one, and the other cards are untouched |
| `Mastery.TwoCardExample` | components/FlashcardSet.tsx:34-38 | two cards graded Easy and Again show 50% retention |
| `Review.Start` | components/FlashcardSet.tsx:29-31 | the session opens on the first card, front up, with levels defaulted; it has a current card exactly when the deck is non-empty |
| `Review.Flip` | components/FlashcardSet.tsx:120 | a click on the card turns it over and changes neither the position nor the cards |
| `Review.Next` | components/FlashcardSet.tsx:40-47 | next shows the front of the following card, and the first card after the last; the position stays valid |
| `Review.Prev` | components/FlashcardSet.tsx:49-56 | previous shows the front of the preceding card, and the last card before the first; the position stays valid |
| `Review.NextPrevInverse` | components/FlashcardSet.tsx:40-56 | next then previous, and previous then next, return to the same card with its front up |
| `Review.NextTimesIndex` | components/FlashcardSet.tsx:44 | k presses of next, up to one round, move the position k places with one wrap past the end |
| `Review.NextRoundTrip` | components/FlashcardSet.tsx:44 | going once round the whole deck returns to the same card |
| `Review.Rate` | components/FlashcardSet.tsx:58-65 | rating grades the current card; Good or Easy then moves on exactly as next does, and Again or Hard leaves the position and side as they were |
| `Review.RateAdvancesIffPassing` | components/FlashcardSet.tsx:62-64 | with more than one card, rating moves the position exactly when the grade is at least Good |
| `Review.RateExample` | components/FlashcardSet.tsx:58-65 | grading the first of two fresh cards Easy moves to the second card and shows 50% |
| `Review.Swap` | components/FlashcardSet.tsx:68 | one exchange keeps the length and the multiset of cards |
| `Review.ApplySwaps` | components/FlashcardSet.tsx:68 | any run of exchanges yields a permutation of the cards |
| `Review.Shuffle` | components/FlashcardSet.tsx:67-72 | shuffling yields the same cards, levels travelling with them, and shows the first card front up |
| `Review.EveryOrderReachable` | components/FlashcardSet.tsx:68 | every permutation of the deck is some run of exchanges, so the model excludes no shuffle outcome |
| `Review.ShuffleKeepsTotal` | components/FlashcardSet.tsx:67-69 | shuffling never changes the level total, so retention stays the same |
| `Review.ShuffleKeepsGraded` | components/FlashcardSet.tsx:67-69 | shuffling keeps every level a grade |
| `Review.Step` | components/FlashcardSet.tsx:40-72 | every control of the review view keeps a valid position and the deck length |
| `Review.RunKeepsMasteryInRange` | components/FlashcardSet.tsx:34-72 | whatever the user does, every level stays a grade and retention stays within 0..100 |
| `Quiz.InitialValid` | components/Quiz.tsx:29-33 | the quiz starts valid with nothing answered |
| `Quiz.Select` | components/Quiz.tsx:35-42 | a choice while the explanation shows does nothing; otherwise the choice is recorded and the explanation shown; the score rises by one exactly when the choice is the correct answer |
| `Quiz.SelectOnce` | components/Quiz.tsx:36 | a second choice on the same question changes nothing, so each question scores at most once |
| `Quiz.Next` | components/Quiz.tsx:44-52 | before the last question, next moves on and clears the choice and explanation; on the last it sets finished and keeps the index, the choice and the explanation; the score is kept |
| `Quiz.Reset` | components/Quiz.tsx:54-60 | retry returns to the first question with nothing answered, no score and not finished |
| `Quiz.FinalGrade` | components/Quiz.tsx:62-63 | the final grade lies between 0 and 100 |
| `Quiz.GradeLabel` | components/Quiz.tsx:76 | exactly one of the three labels: Elite Scholar iff the grade is at least 80, Steady Worker iff it is in [50, 80), Keep Training iff below 50; `Quiz.GradeLabelThresholds` restates this in whole numbers |
| `Quiz.GradeLabelThresholds` | components/Quiz.tsx:63-76 | Elite Scholar iff 100·score ≥ 80·n, Steady Worker iff 80·n > 100·score ≥ 50·n, Keep Training iff 100·score < 50·n |
| `Quiz.Step` | components/Quiz.tsx:35-60 | every control the quiz view offers keeps the quiz valid |
| `Quiz.ScoreBounded` | components/Quiz.tsx:35-52 | however the quiz is played, 0 ≤ score ≤ questions answered ≤ number of questions |
| `FocusTimer.Field` | App.tsx:86 | a field is at least two digits that read back as the number, and exactly two below 100 |
| `FocusTimer.FormatTime` | App.tsx:83-87 | the display has a colon before its last two characters and is exactly MM:SS below 100 minutes |
| `FocusTimer.FormatTimeRoundTrip` | App.tsx:83-87 | reading the minutes and seconds of the display back gives the seconds formatted |
| `FocusTimer.SecondsFieldBelowSixty` | App.tsx:85-86 | the two digits after the colon read as the seconds modulo 60, always below 60 |
| `FocusTimer.Reset` | App.tsx:161 | reset gives a stopped timer at 1500 seconds |
| `FocusTimer.Toggle` | App.tsx:646 | the Focus/Stop button flips running and keeps the time |
| `FocusTimer.Tick` | App.tsx:140-148 | one effect run lowers the time by one exactly when running above zero; at zero the timer stops; the time stays in 0..1500 |
| `FocusTimer.CountdownStopsAtZero` | App.tsx:140-148 | a running timer counts down one second per tick and, once past zero, sits stopped at zero |
| `Navigation.StepBack` | App.tsx:505 | back moves one place, but never below the first item |
| `Navigation.StepForward` | App.tsx:506 | forward moves one place, but never past the last item |
| `Navigation.StepsStayInRange` | App.tsx:505-506 | both buttons keep a valid position valid |
| `Navigation.StepMovesIffEnabled` | App.tsx:505-506 | back moves exactly when not on the first item and forward exactly when not on the last, matching the buttons' disabled conditions |
| `Navigation.BackForwardInverse` | App.tsx:505-506 | away from the ends, back and forward undo one another |
| `Navigation.ForwardTimesClamps` | App.tsx:549 | k presses of forward move k places, stopping at the last lesson or slide |
| `Navigation.BackTimesClamps` | App.tsx:548 | k presses of back move k places, stopping at the first |
| `Navigation.LessonProgress` | App.tsx:529 | the lesson progress figure r is the whole percentage nearest to (i+1)/len, halves rounded up: `len·(2r−1) ≤ 200·(i+1) < len·(2r+1)`; it lies in 0..100 and is 100 on the last lesson |
| `Navigation.ProgressFollowsSteps` | App.tsx:529-549 | stepping forward through lessons never lowers the progress figure, and stepping back never raises it |
| `Slides.Titles` | App.tsx:363 | the titles of the shown slides, one per slide, in order |
| `Slides.Topics` | App.tsx:330-331 | the topics are the selected titles in order, then the trimmed custom topic exactly when it is not blank |
| `Slides.TopicsEmptyIff` | App.tsx:330-332 | there is nothing to generate exactly when no title is selected and the custom topic is blank |
| `Slides.DeckTitle` | App.tsx:349 | a deck title starts with "Deck: ", ends with "..." and has at most 20 topic characters between them |
| `Slides.DeckTitleTopic` | App.tsx:349 | the middle of the title is the whole topic when it has at most 20 characters, and otherwise its first 20 |
| `Slides.RemoveDeck` | App.tsx:456 | delete keeps exactly the decks whose id differs |
| `Slides.RemoveDeckAppend` | App.tsx:456 | deleting from two runs of decks deletes from each and keeps them in order |
| `Slides.RemoveOne` | App.tsx:456 | a single deck is dropped exactly when it has the id |
| `Slides.RemoveAbsent` | App.tsx:456 | deleting an id no deck has leaves the library as it is |
| `Slides.RemoveTwice` | App.tsx:456 | deleting twice is deleting once |
| `Slides.RemoveAt` | App.tsx:456 | with unique ids, deleting deck k leaves the decks before and after it, in order |
| `Slides.RemoveKeepsUnique` | App.tsx:456 | deleting keeps ids unique |
| `Slides.UpdateLinked` | App.tsx:366 | saving an extended list gives it to the linked deck only; every deck keeps its id, title and time |
| `Slides.UpdateUnlinked` | App.tsx:366 | with no deck linked, or the linked deck deleted, saving leaves the library as it is |
| `Slides.UpdateKeepsUnique` | App.tsx:366 | saving keeps ids unique |
| `Studio.InitialGood` | App.tsx:105-107 | the studio starts with no slides, an empty library and the invariant holding |
| `Studio.Bake` | App.tsx:338-346 | slide j is the generator's answer for outline title j, for every slide made, in outline order; it stops exactly at the first failure; after slide j the progress published is round((j+1)·100/n) |
| `Studio.TraceInRange` | App.tsx:345 | every published progress figure is a percentage |
| `Studio.TraceRises` | App.tsx:345 | the published progress figures never fall |
| `Studio.TraceEnds` | App.tsx:345 | after the last slide the figure published is 100 |
| `Studio.FromOutline` | App.tsx:338-354 | with an outline, the display shows the slides made so far, and the progress stays 0 when none was made; a part-way failure sets the error and leaves the library as it was; full success puts the new deck in front of the old ones, in their order |
| `Studio.GenerateSlides` | App.tsx:329-355 | no topics: nothing happens; no outline or an empty one: an error, an empty display and the library untouched; otherwise as above, from the first slide, with the progress 0 when no slide was made and the display never linked to the new deck |
| `Studio.PrependKeepsUnique` | App.tsx:353 | a deck with a new id in front of a library with unique ids keeps them unique |
| `Studio.AddSlide` | App.tsx:357-368 | a blank topic or no material does nothing; a failure sets the error only; success appends the new slide after the shown ones, shows it, keeps the link, and saves the extended list into the linked deck only, keeping every deck's id, title and timestamp |
| `Studio.AddTouchesOnlyLinked` | App.tsx:366 | an add leaves every deck except the linked one as it was |
| `Studio.AddUnlinkedKeepsLibrary` | App.tsx:344-366 | after a generation or a close (nothing linked) an add leaves the whole library as it was |
| `Studio.AddKeepsGood` | App.tsx:363-366 | an add keeps the linked deck holding exactly the displayed slides |
| `Studio.Open` | App.tsx:455 | opening a deck shows its slides from the first and links the display to it; the library, progress and error stay |
| `Studio.OpenKeepsGood` | App.tsx:455 | after opening, the linked deck holds exactly the displayed slides |
| `Studio.OpenThenAdd` | App.tsx:455 | opening deck k and adding a slide saves the slide into deck k too |
| `Studio.Close` | App.tsx:513 | closing empties the display and unlinks it; library, position, progress and error stay |
| `Studio.CloseKeepsGood` | App.tsx:513 | closing keeps the invariant |
| `Studio.Delete` | App.tsx:456 | delete removes exactly the decks with the id, keeping the others in their order (`Slides.RemoveDeck`); the display, position, link, progress and error stay |
| `Studio.DeleteKeepsGood` | App.tsx:456 | delete keeps the invariant, also when the linked deck itself goes |
| `Studio.Jump` | App.tsx:484 | a thumbnail click moves the position to that slide and changes nothing else |
| `Studio.PrevSlide` | App.tsx:505 | the back arrow moves one slide back, stopping at the first, and changes nothing but the position |
| `Studio.NextSlide` | App.tsx:506 | the forward arrow moves one slide on, stopping at the last, and changes nothing but the position |
| `Studio.MovesKeepGood` | App.tsx:484-506 | moving through the deck keeps the invariant and leaves the library and the link as they were |
| `Studio.OpenMoveThenAdd` | App.tsx:455-506 | after opening deck k and moving to any of its slides, an added slide is still saved into deck k |

## Left out

- Floating point: `Math.round(a / b * 100)` is computed on exact rationals, in integers. Near a half the JavaScript doubles do round differently: with 40 cards and a level total of 69, `(69 / 120) * 100` evaluates to 57.49999999999999 and the app shows 57, while `Percent.RoundPercent(69, 120)` is 58. The quiz grade is a `real`. At the 80 and 50 thresholds, `0.8 * 100` and `0.5 * 100` are exact in IEEE doubles, so the labels agree.
- `Text.NatToString` writes every whole number in plain decimal digits. JavaScript's `toString` switches to exponential notation from 10^21 (`(1e21).toString()` is "1e+21"). The timer only formats minutes up to 25 and seconds below 60, so its display is unaffected.
- Strings are sequences of code points. `substring(0, 20)` counts UTF-16 code units in JavaScript, so a deck title can differ for topics outside the Basic Multilingual Plane.
- `Text.Trim` removes the ECMAScript WhiteSpace and LineTerminator code points listed in text.dfy. A newer Unicode version could add space separators.
- The AI service (`services/geminiService.ts`) is not part of this model. Outline and slide generation are oracles: a pure function of the request that returns a result or a failure. Prompts, JSON schemas and retries are not modelled.
- Random ids and `Date.now()` are parameters of `Studio.GenerateSlides` and `Mastery.Grade`.
- `setTimeout` and `setInterval` delays are not modelled; transitions are immediate. In `Review.Rate`, the 300 ms delay before next and the 400 ms animation delay before the index moves are not modelled.
- The slide-direction animation state is not modelled.
- Overlapping asynchronous requests and stale closures are not modelled. Each handler runs to completion before the next starts.
- The transient `isGeneratingSlides` flag and the status strings ("Architecting presentation flow...", "Baking Slide i/n", ...) are display-only and left out.
- The outline and slide calls for a generation are not retried.
- Slide identity: the `linked` field of `Studio.State` holds a deck id, not an array reference. If two decks ever shared a random id, the model would extend both where the source extends only the deck sharing the array. The invariant `Studio.Good` therefore assumes unique ids. `Studio.GenerateSlides` keeps them unique only when its `freshId` is new.
- Loading a `.beestudy` file, saving one, file ingestion, and PPTX export are not modelled. They are I/O and library calls. Loading a library replaces the decks and would leave the display unlinked.
- Audio playback (`stopReading` on lesson navigation), KaTeX rendering, fullscreen, the chat tutor and all layout are not modelled.
- `Navigation.StepForward` and `Studio.NextSlide` require at least one item, because the arrows exist only while a deck or curriculum is shown. On an empty list `Math.min(-1, i + 1)` would give −1.
- `Quiz.Valid` requires a non-empty question list; the component throws on an empty one. App.tsx:740 renders the quiz without a guard, and components/Quiz.tsx:90 and 111 read `questions[currentIdx].question`, which fails with a TypeError when the list is empty. Every `Quiz` member inherits this requirement, so the model says nothing about an empty quiz.
- `Quiz.Next` requires that the explanation is shown and the quiz is not finished, because the Next button is rendered only then (components/Quiz.tsx:153-164).
- `Review.Rate` requires a grade from 0 to 3, because its only callers are the four rating buttons (components/FlashcardSet.tsx:77-82).
- `Studio.Jump` requires the index of a shown slide, because a thumbnail exists only for those (App.tsx:483-484). `Studio.Open` requires the index of a library entry for the same reason (App.tsx:453-455).
- `Mastery.MasteryPercent` requires a non-empty deck, because the view renders nothing for an empty one (components/FlashcardSet.tsx:74).
- `Review.Shuffle` models the comparator sort `sort(() => Math.random() - 0.5)` as a run of exchanges chosen by the random source. `Review.EveryOrderReachable` shows that no order is excluded. The (non-uniform) distribution over orders is not modelled.
