/** The slide entities of types.ts and the pure pieces of the slide studio in
    App.tsx: assembling the topic list, titling a new deck, and the two ways the
    deck library is edited in place (delete by id, update the linked deck). */
module Slides {
  import opened Wrappers
  import opened Text

  datatype Slide = Slide(title: string, bullets: seq<string>, visualPrompt: Option<string>)

  datatype SlideDeck = SlideDeck(id: string, title: string, timestamp: int, slides: seq<Slide>)

  function Titles(slides: seq<Slide>): (r: seq<string>)
    ensures |r| == |slides| && forall k :: 0 <= k < |r| ==> r[k] == slides[k].title
  {
    seq(|slides|, k requires 0 <= k < |slides| => slides[k].title)
  }

  // ---- topics ----

  /** The topics sent to the outline generator: the selected lesson titles in
      order, then the custom topic trimmed, if it is not blank. */
  function Topics(selected: seq<string>, custom: string): (r: seq<string>)
    ensures |selected| <= |r| <= |selected| + 1 && r[..|selected|] == selected
    ensures |r| == |selected| + 1 <==> !AllSpace(custom)
    ensures |r| == |selected| + 1 ==> r[|selected|] == Trim(custom)
    ensures |r| == |selected| + 1 ==> !AllSpace(r[|selected|])
  {
    TrimEmptyIffBlank(custom);
    TrimIdempotent(custom);
    TrimEmptyIffBlank(Trim(custom));
    var t := Trim(custom);
    if t != [] then selected + [t] else selected
  }

  /** Generation starts only when there is some topic: at least one lesson is
      selected or the custom topic has a non-blank character. */
  lemma TopicsEmptyIff(selected: seq<string>, custom: string)
    ensures Topics(selected, custom) == [] <==> selected == [] && AllSpace(custom)
  {
    var r := Topics(selected, custom);
    if selected != [] {
      assert r[0] == selected[0];
    }
  }

  // ---- deck titles ----

  const TitleHead: string := "Deck: "
  const TitleTail: string := "..."
  /** `substring(0, 20)` of the first topic. */
  const TitleTopicLength := 20

  /** The title of a generated deck: "Deck: ", at most the first 20 characters
      of the first topic, then "...". */
  function DeckTitle(topic: string): (r: string)
    ensures |r| == |TitleHead| + |TitleTail| + (if |topic| < TitleTopicLength then |topic| else TitleTopicLength)
    ensures r[..|TitleHead|] == TitleHead && r[|r| - |TitleTail|..] == TitleTail
  {
    var n := if |topic| < TitleTopicLength then |topic| else TitleTopicLength;
    TitleHead + topic[..n] + TitleTail
  }

  /** The topic part of a deck title, between the head and the tail. */
  function TitleTopic(title: string): (t: string)
    requires |title| >= |TitleHead| + |TitleTail|
    ensures |t| == |title| - |TitleHead| - |TitleTail|
  {
    title[|TitleHead|..|title| - |TitleTail|]
  }

  /** The topic is recovered from the title: all of it when it has at most 20
      characters, otherwise its first 20. */
  lemma DeckTitleTopic(topic: string)
    ensures |topic| <= TitleTopicLength ==> TitleTopic(DeckTitle(topic)) == topic
    ensures |topic| > TitleTopicLength ==> TitleTopic(DeckTitle(topic)) == topic[..TitleTopicLength]
  {
    var n := if |topic| < TitleTopicLength then |topic| else TitleTopicLength;
    var r := DeckTitle(topic);
    assert r == TitleHead + topic[..n] + TitleTail;
    assert TitleTopic(r) == topic[..n];
  }

  // ---- the library ----

  predicate HasId(decks: seq<SlideDeck>, id: string) {
    exists k :: 0 <= k < |decks| && decks[k].id == id
  }

  /** No two decks of the library share an id. */
  predicate UniqueIds(decks: seq<SlideDeck>) {
    forall i, j :: 0 <= i < j < |decks| ==> decks[i].id != decks[j].id
  }

  /** The trash button: `prev.filter(d => d.id !== id)`. */
  function RemoveDeck(decks: seq<SlideDeck>, id: string): (r: seq<SlideDeck>)
    ensures |r| <= |decks|
    ensures forall d :: d in r <==> d in decks && d.id != id
  {
    if decks == [] then []
    else if decks[0].id == id then RemoveDeck(decks[1..], id)
    else [decks[0]] + RemoveDeck(decks[1..], id)
  }

  /** Removing from a concatenation removes from each part and keeps the parts
      in order; with `RemoveOne` this fixes the result completely. */
  lemma {:induction false} RemoveDeckAppend(a: seq<SlideDeck>, b: seq<SlideDeck>, id: string)
    ensures RemoveDeck(a + b, id) == RemoveDeck(a, id) + RemoveDeck(b, id)
  {
    if a != [] {
      assert (a + b)[1..] == a[1..] + b;
      RemoveDeckAppend(a[1..], b, id);
    } else {
      assert a + b == b;
    }
  }

  /** A single deck goes exactly when it carries the id. */
  lemma RemoveOne(d: SlideDeck, id: string)
    ensures RemoveDeck([d], id) == if d.id == id then [] else [d]
  {
  }

  /** A library without the id is left as it is. */
  lemma {:induction false} RemoveAbsent(decks: seq<SlideDeck>, id: string)
    requires !HasId(decks, id)
    ensures RemoveDeck(decks, id) == decks
  {
    if decks != [] {
      assert decks[0].id != id;
      forall k | 0 <= k < |decks[1..]|
        ensures decks[1..][k].id != id
      {
        assert decks[1..][k] == decks[k + 1];
      }
      RemoveAbsent(decks[1..], id);
    }
  }

  /** Deleting twice is deleting once. */
  lemma RemoveTwice(decks: seq<SlideDeck>, id: string)
    ensures RemoveDeck(RemoveDeck(decks, id), id) == RemoveDeck(decks, id)
  {
    var r := RemoveDeck(decks, id);
    forall k | 0 <= k < |r|
      ensures r[k].id != id
    {
      assert r[k] in r;
    }
    RemoveAbsent(r, id);
  }

  /** With unique ids, the id of the deck at position k occurs nowhere else. */
  lemma IdOnlyAt(decks: seq<SlideDeck>, k: int)
    requires UniqueIds(decks) && 0 <= k < |decks|
    ensures !HasId(decks[..k], decks[k].id) && !HasId(decks[k + 1..], decks[k].id)
  {
    var before, after := decks[..k], decks[k + 1..];
    forall j | 0 <= j < |before|
      ensures before[j].id != decks[k].id
    {
      assert before[j] == decks[j];
    }
    forall j | 0 <= j < |after|
      ensures after[j].id != decks[k].id
    {
      assert after[j] == decks[k + 1 + j];
    }
  }

  /** A deck carrying the id, between two parts that do not, is the only one
      to go. */
  lemma {:induction false} RemoveMiddle(before: seq<SlideDeck>, d: SlideDeck, after: seq<SlideDeck>, id: string)
    requires d.id == id && RemoveDeck(before, id) == before && RemoveDeck(after, id) == after
    ensures RemoveDeck(before + [d] + after, id) == before + after
  {
    var front := before + [d];
    RemoveOne(d, id);
    RemoveDeckAppend(before, [d], id);
    assert RemoveDeck(front, id) == before + [];
    assert before + [] == before;
    RemoveDeckAppend(front, after, id);
  }

  /** With unique ids, deleting the deck at position k leaves the decks before
      and after it, in order. */
  lemma {:induction false} RemoveAt(decks: seq<SlideDeck>, k: int)
    requires UniqueIds(decks) && 0 <= k < |decks|
    ensures RemoveDeck(decks, decks[k].id) == decks[..k] + decks[k + 1..]
  {
    IdOnlyAt(decks, k);
    RemoveLone(decks, k);
  }

  /** The same, from the fact that the id occurs only at position k. */
  lemma {:induction false} RemoveLone(decks: seq<SlideDeck>, k: int)
    requires 0 <= k < |decks| && !HasId(decks[..k], decks[k].id) && !HasId(decks[k + 1..], decks[k].id)
    ensures RemoveDeck(decks, decks[k].id) == decks[..k] + decks[k + 1..]
  {
    var id, before, after := decks[k].id, decks[..k], decks[k + 1..];
    assert decks == before + [decks[k]] + after;
    RemoveAbsent(before, id);
    RemoveAbsent(after, id);
    RemoveMiddle(before, decks[k], after, id);
  }

  /** Deleting keeps ids unique. */
  lemma RemoveKeepsUnique(decks: seq<SlideDeck>, id: string)
    requires UniqueIds(decks)
    ensures UniqueIds(RemoveDeck(decks, id))
  {
    if decks != [] {
      RemoveKeepsUnique(decks[1..], id);
      var rest := RemoveDeck(decks[1..], id);
      forall k | 0 <= k < |rest|
        ensures rest[k].id != decks[0].id
      {
        assert rest[k] in decks[1..];
        var j :| 0 <= j < |decks[1..]| && decks[1..][j] == rest[k];
        assert decks[j + 1] == rest[k];
      }
    }
  }

  /** Saving an extended slide list back into the library:
      `prev.map(d => d.slides === slides ? { ...d, slides: updated } : d)`,
      with the identity test read as "d is the linked deck". */
  function UpdateLinked(decks: seq<SlideDeck>, linked: Option<string>, updated: seq<Slide>): (r: seq<SlideDeck>)
    ensures |r| == |decks|
    ensures forall k :: 0 <= k < |r| ==>
      r[k].id == decks[k].id && r[k].title == decks[k].title && r[k].timestamp == decks[k].timestamp
    ensures forall k :: 0 <= k < |r| ==>
      r[k].slides == (if linked == Some(decks[k].id) then updated else decks[k].slides)
  {
    seq(|decks|, k requires 0 <= k < |decks| =>
      if linked == Some(decks[k].id) then decks[k].(slides := updated) else decks[k])
  }

  /** When nothing is linked, or no deck carries the linked id (it was
      deleted), the library is left as it is. */
  lemma UpdateUnlinked(decks: seq<SlideDeck>, linked: Option<string>, updated: seq<Slide>)
    requires linked == None || !HasId(decks, linked.value)
    ensures UpdateLinked(decks, linked, updated) == decks
  {
    var r := UpdateLinked(decks, linked, updated);
    forall k | 0 <= k < |r|
      ensures r[k] == decks[k]
    {
      assert linked != Some(decks[k].id);
    }
  }

  /** Updating the linked deck keeps ids unique. */
  lemma UpdateKeepsUnique(decks: seq<SlideDeck>, linked: Option<string>, updated: seq<Slide>)
    requires UniqueIds(decks)
    ensures UniqueIds(UpdateLinked(decks, linked, updated))
  {
  }
}
