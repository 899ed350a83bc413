/**
 * The single-open FAQ accordion (src/components/sections/FAQSection.tsx).
 * The component keeps one state cell, the index of the open item or none,
 * and one transition, the toggle a question's button issues.
 */
module Faq {

  /** `number | null` */
  datatype Option<T> = None | Some(value: T)

  /** The component lists five question/answer pairs. */
  const FaqCount: nat := 5

  /** The state after toggling item `index`: the open item closes, any
      other item opens and replaces whatever was open. */
  function Toggled(active: Option<nat>, index: nat): (active': Option<nat>)
  {
    if active == Some(index) then None else Some(index)
  }

  /** No item is open, or the open one is one of the `count` items. */
  predicate InRange(active: Option<nat>, count: nat) {
    active.Some? ==> active.value < count
  }

  /** Answer `k` is rendered: `activeIndex === index`. */
  predicate AnswerShown(active: Option<nat>, k: nat) {
    active == Some(k)
  }

  /** The chevron of item `k` carries `rotate-180`: `activeIndex === index`. */
  predicate ChevronRotated(active: Option<nat>, k: nat) {
    active == Some(k)
  }

  /** The items whose answer is rendered; since this holds for every
      state, it holds after any sequence of toggles. */
  function ShownAnswers(active: Option<nat>, count: nat): (r: set<nat>)
    ensures |r| <= 1
    ensures forall k: nat :: k in r <==> k < count && AnswerShown(active, k)
    ensures InRange(active, count) && active.Some? ==> r == {active.value}
    ensures active == None ==> r == {}
  {
    if active.Some? && active.value < count then {active.value} else {}
  }

  /** Toggling the same item twice restores the state when that item was
      the open one or nothing was open, and only then. */
  lemma ToggleTwice(active: Option<nat>, index: nat)
    ensures Toggled(Toggled(active, index), index) == active
            <==> active == None || active == Some(index)
  {
  }

  /** The state after the toggles `indices`, issued in order. */
  function Replay(active: Option<nat>, indices: seq<nat>): (active': Option<nat>)
    decreases |indices|
  {
    if indices == [] then active else Replay(Toggled(active, indices[0]), indices[1..])
  }

  /** Toggles issued only with indices of the list keep the state in range. */
  lemma {:induction false} ReplayInRange(active: Option<nat>, indices: seq<nat>, count: nat)
    requires InRange(active, count)
    requires forall k :: 0 <= k < |indices| ==> indices[k] < count
    ensures InRange(Replay(active, indices), count)
    decreases |indices|
  {
    if indices != [] {
      ReplayInRange(Toggled(active, indices[0]), indices[1..], count);
    }
  }

  /** On the page's list of `FaqCount` questions, whatever questions are
      clicked after mounting, the open item, if any, is one of the list and
      at most that one answer is rendered. */
  lemma FaqClicksInRange(indices: seq<nat>)
    requires forall k :: 0 <= k < |indices| ==> indices[k] < FaqCount
    ensures var r := Replay(None, indices);
            r == None || r.value < FaqCount
    ensures |ShownAnswers(Replay(None, indices), FaqCount)| <= 1
  {
    ReplayInRange(None, indices, FaqCount);
  }

  /** Last toggle wins: after a non-empty sequence of toggles either nothing
      is open or the item toggled last is. */
  lemma {:induction false} ReplayLastWins(active: Option<nat>, indices: seq<nat>)
    requires indices != []
    ensures var r := Replay(active, indices);
            r == None || r == Some(indices[|indices| - 1])
    decreases |indices|
  {
    if |indices| > 1 {
      ReplayLastWins(Toggled(active, indices[0]), indices[1..]);
    }
  }

  /** The accordion's live state: `const [activeIndex, setActiveIndex] =
      useState<number | null>(null)` over a list of `itemCount` items. */
  class Accordion {
    var activeIndex: Option<nat>
    const itemCount: nat

    ghost predicate Valid()
      reads this
    {
      InRange(activeIndex, itemCount)
    }

    /** Initially no item is open. */
    constructor (itemCount: nat)
      ensures this.itemCount == itemCount
      ensures activeIndex == None
      ensures Valid()
    {
      this.itemCount := itemCount;
      activeIndex := None;
    }

    /** `toggleAccordion(index)`. */
    method Toggle(index: nat)
      modifies this
      ensures activeIndex == Toggled(old(activeIndex), index)
      ensures old(activeIndex) == Some(index) ==> activeIndex == None
      ensures old(activeIndex) != Some(index) ==> activeIndex == Some(index)
      ensures old(Valid()) && index < itemCount ==> Valid()
    {
      activeIndex := if activeIndex == Some(index) then None else Some(index);
    }

    /** Whether item `k` shows its answer. */
    function IsAnswerShown(k: nat): (shown: bool)
      reads this
      ensures shown ==> forall j: nat :: AnswerShown(activeIndex, j) ==> j == k
      ensures Valid() ==> (shown <==> k in ShownAnswers(activeIndex, itemCount))
    {
      AnswerShown(activeIndex, k)
    }

    /** Whether item `k` has its chevron turned. */
    function IsChevronRotated(k: nat): (rotated: bool)
      reads this
      ensures rotated <==> IsAnswerShown(k)
    {
      ChevronRotated(activeIndex, k)
    }
  }
}
