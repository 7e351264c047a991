/** The slide studio of App.tsx: the displayed slide list, its position, the
    deck library and the handlers that change them.

    The source decides which library deck an added slide is saved into by
    array identity (`d.slides === slides`). The model makes that identity an
    explicit field: `linked` is the id of the library deck whose slide array is
    the one displayed, or None when the displayed array belongs to no deck. A
    freshly generated deck is displayed through a copy, so it is not linked; a
    deck opened from the library is; adding a slide keeps the link. */
module Studio {
  import opened Wrappers
  import opened Text
  import opened Percent
  import opened Slides
  import opened Navigation

  /** The outline generator: topics and study context to slide titles, or a failure. */
  type OutlineOracle = (seq<string>, string) -> Option<seq<string>>

  /** The slide generator: a title, the titles around it, the study context and
      an extra instruction, to one slide or a failure. */
  type SlideOracle = (string, seq<string>, string, string) -> Option<Slide>

  const GenerateFailure: string := "Failed to construct slide hive."
  const AddFailure: string := "Failed to generate extra slide."
  const AddInstruction: string := "Focus on this sub-topic addition."

  /** What the studio half of App.tsx keeps in its React state: the displayed
      slides and position, the library, the deck the display is linked to, the
      progress figure and the error message. */
  datatype State = State(
    slides: seq<Slide>,
    index: int,
    decks: seq<SlideDeck>,
    linked: Option<string>,
    progress: int,
    error: Option<string>)

  /** The state when the app starts. */
  const Initial := State([], 0, [], None, 0, None)

  /** The position is on a slide whenever there are slides to show, and the
      progress figure is a percentage. */
  predicate Valid(st: State) {
    0 <= st.index && (st.slides == [] || st.index < |st.slides|) && 0 <= st.progress <= 100
  }

  /** What array identity guarantees in the source: every library deck carrying
      the linked id holds exactly the displayed slides. */
  predicate Synced(st: State) {
    forall k :: 0 <= k < |st.decks| && st.linked == Some(st.decks[k].id) ==> st.decks[k].slides == st.slides
  }

  /** The invariant every handler keeps. */
  predicate Good(st: State) {
    Valid(st) && Synced(st) && UniqueIds(st.decks)
  }

  lemma InitialGood()
    ensures Good(Initial) && Initial.slides == [] && Initial.decks == []
  {
  }

  // ---- generating a deck ----

  /** The loop of `handleGenerateSlides`: one slide per outline title, in
      outline order, stopping at the first failure. `trace` is the sequence
      of progress figures published, one after each slide. */
  method Bake(outline: seq<string>, context: string, generate: SlideOracle) returns (baked: seq<Slide>, trace: seq<int>)
    requires |outline| > 0
    ensures |baked| <= |outline| && |trace| == |baked|
    ensures forall j :: 0 <= j < |baked| ==> generate(outline[j], outline, context, "") == Some(baked[j])
    ensures |baked| < |outline| ==> generate(outline[|baked|], outline, context, "") == None
    ensures forall j :: 0 <= j < |trace| ==> trace[j] == RoundPercent(j + 1, |outline|)
  {
    baked, trace := [], [];
    var i := 0;
    while i < |outline|
      invariant 0 <= i <= |outline| && |baked| == i && |trace| == i
      invariant forall j :: 0 <= j < i ==> generate(outline[j], outline, context, "") == Some(baked[j])
      invariant forall j :: 0 <= j < i ==> trace[j] == RoundPercent(j + 1, |outline|)
    {
      var next := generate(outline[i], outline, context, "");
      if next.None? {
        return;
      }
      baked := baked + [next.value];
      trace := trace + [RoundPercent(i + 1, |outline|)];
      i := i + 1;
    }
  }

  /** Every published progress figure is a percentage. */
  lemma TraceInRange(n: int, trace: seq<int>)
    requires n > 0 && |trace| <= n
    requires forall j :: 0 <= j < |trace| ==> trace[j] == RoundPercent(j + 1, n)
    ensures forall j :: 0 <= j < |trace| ==> 0 <= trace[j] <= 100
  {
    forall j | 0 <= j < |trace|
      ensures 0 <= trace[j] <= 100
    {
      RoundPercentBounds(j + 1, n);
    }
  }

  /** The published progress figures never fall. */
  lemma TraceRises(n: int, trace: seq<int>)
    requires n > 0
    requires forall j :: 0 <= j < |trace| ==> trace[j] == RoundPercent(j + 1, n)
    ensures forall i, j :: 0 <= i <= j < |trace| ==> trace[i] <= trace[j]
  {
    forall i, j | 0 <= i <= j < |trace|
      ensures trace[i] <= trace[j]
    {
      RoundPercentMonotone(i + 1, j + 1, n);
    }
  }

  /** Once every slide is done, the last figure published is 100. */
  lemma TraceEnds(n: int, trace: seq<int>)
    requires n > 0 && |trace| == n
    requires forall j :: 0 <= j < |trace| ==> trace[j] == RoundPercent(j + 1, n)
    ensures trace[n - 1] == 100
  {
    RoundPercentFull(n);
  }

  /** The progress figure left on screen by a run that published `trace`. */
  function LastProgress(trace: seq<int>): (p: int)
    ensures trace == [] ==> p == 0
    ensures trace != [] ==> p == trace[|trace| - 1]
  {
    if trace == [] then 0 else trace[|trace| - 1]
  }

  /** `handleGenerateSlides` once an outline has arrived: bake its slides and,
      when all of them succeed, put the new deck in front of the library. */
  method FromOutline(st: State, topic: string, context: string, outline: seq<string>,
                     generate: SlideOracle, freshId: string, now: int)
    returns (r: State)
    requires Valid(st) && |outline| > 0
    ensures Valid(r) && r.index == 0 && r.linked == None
    ensures |r.slides| <= |outline|
    ensures forall j :: 0 <= j < |r.slides| ==> generate(outline[j], outline, context, "") == Some(r.slides[j])
    ensures r.slides != [] ==> r.progress == RoundPercent(|r.slides|, |outline|)
    ensures r.slides == [] ==> r.progress == 0
    ensures |r.slides| < |outline| ==>
      generate(outline[|r.slides|], outline, context, "") == None &&
      r.decks == st.decks && r.error == Some(GenerateFailure)
    ensures |r.slides| == |outline| ==>
      r.decks == [SlideDeck(freshId, DeckTitle(topic), now, r.slides)] + st.decks &&
      r.progress == 100 && r.error == st.error
    ensures Good(st) && !HasId(st.decks, freshId) ==> Good(r)
  {
    var baked, trace := Bake(outline, context, generate);
    TraceInRange(|outline|, trace);
    var progress := LastProgress(trace);
    if |baked| < |outline| {
      return State(baked, 0, st.decks, None, progress, Some(GenerateFailure));
    }
    TraceEnds(|outline|, trace);
    var deck := SlideDeck(freshId, DeckTitle(topic), now, baked);
    if UniqueIds(st.decks) && !HasId(st.decks, freshId) {
      PrependKeepsUnique(deck, st.decks);
    }
    return State(baked, 0, [deck] + st.decks, None, progress, st.error);
  }

  /** `handleGenerateSlides`. `summary` is the study material's summary, None
      when no material is loaded; `freshId` and `now` stand for the random id
      and the clock. */
  method GenerateSlides(st: State, selected: seq<string>, custom: string, summary: Option<string>,
                        outlineOf: OutlineOracle, generate: SlideOracle, freshId: string, now: int)
    returns (r: State)
    requires Valid(st)
    ensures Valid(r)
    // nothing to generate from: nothing happens
    ensures Topics(selected, custom) == [] ==> r == st
    // otherwise the display restarts unlinked at the first slide
    ensures Topics(selected, custom) != [] ==> r.index == 0 && r.linked == None
    // no outline: an error, an empty display, the library untouched
    ensures var o := outlineOf(Topics(selected, custom), summary.GetOr(""));
      Topics(selected, custom) != [] && (o.None? || o.value == []) ==>
        r.slides == [] && r.progress == 0 && r.decks == st.decks && r.error == Some(GenerateFailure)
    // an outline: its slides, in order, up to the first failure
    ensures var o := outlineOf(Topics(selected, custom), summary.GetOr(""));
      Topics(selected, custom) != [] && o.Some? && o.value != [] ==>
        |r.slides| <= |o.value| &&
        (forall j :: 0 <= j < |r.slides| ==> generate(o.value[j], o.value, summary.GetOr(""), "") == Some(r.slides[j])) &&
        (r.slides != [] ==> r.progress == RoundPercent(|r.slides|, |o.value|)) &&
        (r.slides == [] ==> r.progress == 0)
    // a failure part-way: an error and the library untouched
    ensures var o := outlineOf(Topics(selected, custom), summary.GetOr(""));
      Topics(selected, custom) != [] && o.Some? && o.value != [] && |r.slides| < |o.value| ==>
        generate(o.value[|r.slides|], o.value, summary.GetOr(""), "") == None &&
        r.decks == st.decks && r.error == Some(GenerateFailure)
    // full success: the new deck goes in front of the old ones
    ensures var o := outlineOf(Topics(selected, custom), summary.GetOr(""));
      Topics(selected, custom) != [] && o.Some? && o.value != [] && |r.slides| == |o.value| ==>
        r.decks == [SlideDeck(freshId, DeckTitle(Topics(selected, custom)[0]), now, r.slides)] + st.decks &&
        r.progress == 100 && r.error == st.error
    ensures Good(st) && !HasId(st.decks, freshId) ==> Good(r)
  {
    var topics := Topics(selected, custom);
    if topics == [] {
      return st;
    }
    var context := summary.GetOr("");
    var outline := outlineOf(topics, context);
    if outline.None? || outline.value == [] {
      return State([], 0, st.decks, None, 0, Some(GenerateFailure));
    }
    r := FromOutline(st, topics[0], context, outline.value, generate, freshId, now);
  }

  /** A deck with a new id can go in front of a library with unique ids. */
  lemma PrependKeepsUnique(deck: SlideDeck, decks: seq<SlideDeck>)
    requires UniqueIds(decks) && !HasId(decks, deck.id)
    ensures UniqueIds([deck] + decks)
  {
    var r := [deck] + decks;
    forall i, j | 0 <= i < j < |r|
      ensures r[i].id != r[j].id
    {
      assert r[j] == decks[j - 1];
      if i > 0 {
        assert r[i] == decks[i - 1];
      }
    }
  }

  // ---- adding one slide ----

  /** `handleAddIndividualSlide`: a slide on `topic` (sent untrimmed), generated
      against the titles on screen, goes after the last one and is shown; the
      linked library deck, if any, gets the extended list too. */
  function AddSlide(st: State, topic: string, summary: Option<string>, generate: SlideOracle): (r: State)
    requires Valid(st)
    ensures Valid(r) && r.linked == st.linked && r.progress == st.progress
    ensures AllSpace(topic) || summary.None? ==> r == st
    ensures !AllSpace(topic) && summary.Some? ==>
      match generate(topic, Titles(st.slides), summary.value, AddInstruction)
      case None => r == st.(error := Some(AddFailure))
      case Some(s) =>
        |r.slides| == |st.slides| + 1 && r.slides[..|st.slides|] == st.slides && r.slides[|st.slides|] == s &&
        r.index == |r.slides| - 1 && r.error == st.error &&
        r.decks == UpdateLinked(st.decks, st.linked, r.slides)
  {
    TrimEmptyIffBlank(topic);
    if Trim(topic) == [] || summary.None? then st
    else match generate(topic, Titles(st.slides), summary.value, AddInstruction)
      case None => st.(error := Some(AddFailure))
      case Some(s) =>
        var updated := st.slides + [s];
        st.(slides := updated, index := |st.slides|, decks := UpdateLinked(st.decks, st.linked, updated))
  }

  /** Only the linked deck gains the slide: every other deck, and every deck
      when nothing is linked, is left as it was. */
  lemma AddTouchesOnlyLinked(st: State, topic: string, summary: Option<string>, generate: SlideOracle)
    requires Valid(st)
    ensures var r := AddSlide(st, topic, summary, generate);
      |r.decks| == |st.decks| &&
      forall k :: 0 <= k < |st.decks| && st.linked != Some(st.decks[k].id) ==> r.decks[k] == st.decks[k]
  {
    var r := AddSlide(st, topic, summary, generate);
    TrimEmptyIffBlank(topic);
    if !AllSpace(topic) && summary.Some? && generate(topic, Titles(st.slides), summary.value, AddInstruction).Some? {
      assert r.decks == UpdateLinked(st.decks, st.linked, r.slides);
    }
  }

  /** With nothing linked (a freshly generated or closed deck) the library does
      not change at all. */
  lemma AddUnlinkedKeepsLibrary(st: State, topic: string, summary: Option<string>, generate: SlideOracle)
    requires Valid(st) && st.linked == None
    ensures AddSlide(st, topic, summary, generate).decks == st.decks
  {
    TrimEmptyIffBlank(topic);
    if !AllSpace(topic) && summary.Some? && generate(topic, Titles(st.slides), summary.value, AddInstruction).Some? {
      UpdateUnlinked(st.decks, st.linked, AddSlide(st, topic, summary, generate).slides);
    }
  }

  /** Adding keeps the invariant: the linked deck still holds what is shown. */
  lemma AddKeepsGood(st: State, topic: string, summary: Option<string>, generate: SlideOracle)
    requires Good(st)
    ensures Good(AddSlide(st, topic, summary, generate))
  {
    var r := AddSlide(st, topic, summary, generate);
    TrimEmptyIffBlank(topic);
    if !AllSpace(topic) && summary.Some? && generate(topic, Titles(st.slides), summary.value, AddInstruction).Some? {
      UpdateKeepsUnique(st.decks, st.linked, r.slides);
    }
  }

  // ---- the library ----

  /** Opening a library deck shows its own slide array from the first slide. */
  function Open(st: State, k: int): (r: State)
    requires Valid(st) && 0 <= k < |st.decks|
    ensures Valid(r) && r.decks == st.decks && r.index == 0
    ensures r.slides == st.decks[k].slides && r.linked == Some(st.decks[k].id)
    ensures r.progress == st.progress && r.error == st.error
  {
    st.(slides := st.decks[k].slides, index := 0, linked := Some(st.decks[k].id))
  }

  /** An opened deck is linked, and with unique ids the invariant holds. */
  lemma OpenKeepsGood(st: State, k: int)
    requires Good(st) && 0 <= k < |st.decks|
    ensures Good(Open(st, k))
  {
  }

  /** Opening a deck and adding a slide saves the slide into that deck. */
  lemma OpenThenAdd(st: State, k: int, topic: string, summary: Option<string>, generate: SlideOracle)
    requires Good(st) && 0 <= k < |st.decks|
    ensures var r := AddSlide(Open(st, k), topic, summary, generate);
      |r.decks| == |st.decks| && r.decks[k].slides == r.slides && r.decks[k].id == st.decks[k].id
  {
    OpenKeepsGood(st, k);
    AddKeepsGood(Open(st, k), topic, summary, generate);
    AddTouchesOnlyLinked(Open(st, k), topic, summary, generate);
  }

  /** The Close Deck button: the display empties and is linked to nothing. */
  function Close(st: State): (r: State)
    requires Valid(st)
    ensures Valid(r) && r.slides == [] && r.linked == None
    ensures r.decks == st.decks && r.index == st.index
    ensures r.progress == st.progress && r.error == st.error
  {
    st.(slides := [], linked := None)
  }

  lemma CloseKeepsGood(st: State)
    requires Good(st)
    ensures Good(Close(st))
  {
  }

  /** The trash button of a library deck. */
  function Delete(st: State, id: string): (r: State)
    requires Valid(st)
    ensures Valid(r) && r == st.(decks := r.decks) && r.decks == RemoveDeck(st.decks, id)
    ensures forall d :: d in r.decks <==> d in st.decks && d.id != id
  {
    st.(decks := RemoveDeck(st.decks, id))
  }

  lemma DeleteKeepsGood(st: State, id: string)
    requires Good(st)
    ensures Good(Delete(st, id))
  {
    var r := Delete(st, id);
    RemoveKeepsUnique(st.decks, id);
    forall k | 0 <= k < |r.decks| && r.linked == Some(r.decks[k].id)
      ensures r.decks[k].slides == r.slides
    {
      assert r.decks[k] in st.decks;
      var j :| 0 <= j < |st.decks| && st.decks[j] == r.decks[k];
    }
  }

  // ---- moving through the displayed deck ----

  /** A click on the thumbnail of slide i: it shows slide i and changes
      nothing else. */
  function Jump(st: State, i: int): (r: State)
    requires Valid(st) && 0 <= i < |st.slides|
    ensures r.index == i && r == st.(index := r.index)
    ensures Valid(r) && r.slides[r.index] == st.slides[i]
  {
    st.(index := i)
  }

  /** The back arrow; it stops at the first slide and changes nothing but the
      position. */
  function PrevSlide(st: State): (r: State)
    requires Valid(st)
    ensures Valid(r) && r == st.(index := r.index)
    ensures r.index == (if st.index > 0 then st.index - 1 else 0)
  {
    st.(index := StepBack(st.index))
  }

  /** The forward arrow; it stops at the last slide and changes nothing but
      the position. It is shown only while there are slides. */
  function NextSlide(st: State): (r: State)
    requires Valid(st) && st.slides != []
    ensures Valid(r) && r == st.(index := r.index)
    ensures r.index == (if st.index < |st.slides| - 1 then st.index + 1 else |st.slides| - 1)
  {
    st.(index := StepForward(st.index, |st.slides|))
  }

  /** Moving through the deck keeps the invariant and leaves the library, the
      link, the progress figure and the error as they were. */
  lemma MovesKeepGood(st: State, i: int)
    requires Good(st)
    ensures Good(PrevSlide(st)) && PrevSlide(st).decks == st.decks && PrevSlide(st).linked == st.linked
    ensures st.slides != [] ==> Good(NextSlide(st)) && NextSlide(st).decks == st.decks && NextSlide(st).linked == st.linked
    ensures 0 <= i < |st.slides| ==> Good(Jump(st, i)) && Jump(st, i).decks == st.decks && Jump(st, i).linked == st.linked
  {
  }

  /** After opening deck k and moving to any of its slides, an added slide is
      still saved into deck k: moving does not break the link. */
  lemma OpenMoveThenAdd(st: State, k: int, i: int, topic: string, summary: Option<string>, generate: SlideOracle)
    requires Good(st) && 0 <= k < |st.decks| && 0 <= i < |st.decks[k].slides|
    ensures var r := AddSlide(Jump(Open(st, k), i), topic, summary, generate);
      |r.decks| == |st.decks| && r.decks[k].id == st.decks[k].id && r.decks[k].slides == r.slides
  {
    OpenKeepsGood(st, k);
    var moved := Jump(Open(st, k), i);
    MovesKeepGood(Open(st, k), i);
    AddKeepsGood(moved, topic, summary, generate);
  }
}
