/**
 Sequences of user events driving the chip input from its initial state, and
 the invariants every state reached that way keeps.
 */
module Reachability {
  import opened Seqs
  import opened ChipInput

  /** The user events the component handles. */
  datatype Event =
    | Typed(text: string)
    | SuggestionClicked(item: string, freshId: nat)
    | KeyPressed(key: string)
    | RemoveClicked(chipId: nat)

  /** One event handled to completion. */
  function Step(s: State, e: Event): (r: State)
  {
    match e
    case Typed(text) => InputChange(s, text)
    case SuggestionClicked(item, freshId) => SelectItem(s, item, Name, freshId)
    case KeyPressed(key) => KeyDown(s, key)
    case RemoveClicked(chipId) => RemoveClick(s, chipId)
  }

  /**
   An event the rendered page can deliver in state `s`, given the catalog
   `items`: only listed suggestions can be clicked, and only chips on screen
   have an X button.
   */
  predicate Available(items: seq<string>, s: State, e: Event)
  {
    match e
    case SuggestionClicked(item, _) => item in Suggestions(items, s.query, s.chips)
    case RemoveClicked(chipId) => HasChipId(s.chips, chipId)
    case _ => true
  }

  /** The state after handling `events` in order, starting from `s`. */
  function Run(s: State, events: seq<Event>): (r: State)
    decreases |events|
  {
    if events == [] then s else Run(Step(s, events[0]), events[1..])
  }

  /** Every event of `events` is available when it arrives. */
  predicate Feasible(items: seq<string>, s: State, events: seq<Event>)
    decreases |events|
  {
    events == [] || (Available(items, s, events[0]) && Feasible(items, Step(s, events[0]), events[1..]))
  }

  /** An armed id always belongs to a chip on screen. */
  predicate HighlightNamesChip(s: State)
  {
    s.highlighted.Some? ==> HasChipId(s.chips, s.highlighted.value)
  }

  function ValueOf(c: Chip): (r: string)
  {
    c.value
  }

  /** Every chip is a name from the catalog `items` and no name is chosen twice. */
  predicate DistinctCatalogNames(items: seq<string>, chips: seq<Chip>)
  {
    && (forall c :: c in chips ==> c.kind == Name && c.value in items)
    && DistinctBy(chips, ValueOf)
  }

  lemma StepKeepsHighlight(s: State, e: Event)
    requires HighlightNamesChip(s)
    ensures HighlightNamesChip(Step(s, e))
  {
    match e
    case Typed(_) =>
    case SuggestionClicked(item, freshId) =>
      if s.highlighted.Some? {
        var c :| c in s.chips && c.id == s.highlighted.value;
        assert c in Step(s, e).chips;
      }
    case KeyPressed(key) =>
      var r := Step(s, e);
      if r.highlighted.Some? && r.highlighted != s.highlighted {
        assert r.chips[|r.chips| - 1].id == r.highlighted.value;
      }
    case RemoveClicked(_) =>
  }

  /** The highlight invariant survives any sequence of events, available or not. */
  lemma {:induction false} RunKeepsHighlight(s: State, events: seq<Event>)
    requires HighlightNamesChip(s)
    ensures HighlightNamesChip(Run(s, events))
    decreases |events|
  {
    if events != [] {
      StepKeepsHighlight(s, events[0]);
      RunKeepsHighlight(Step(s, events[0]), events[1..]);
    }
  }

  /** In every state reachable from mount, an armed id names a chip that exists. */
  lemma ReachableHighlightNamesChip(events: seq<Event>)
    ensures HighlightNamesChip(Run(Initial, events))
  {
    RunKeepsHighlight(Initial, events);
  }

  lemma StepKeepsDistinctNames(items: seq<string>, s: State, e: Event)
    requires DistinctCatalogNames(items, s.chips)
    requires Available(items, s, e)
    ensures DistinctCatalogNames(items, Step(s, e).chips)
  {
    match e
    case Typed(_) =>
    case SuggestionClicked(item, freshId) =>
      assert item in items && !IsChipValue(s.chips, item);
      AppendKeepsDistinctNames(items, s.chips, Chip(freshId, Name, item));
    case KeyPressed(key) =>
      SubsequenceKeepsDistinctNames(items, KeyDown(s, key).chips, s.chips);
    case RemoveClicked(chipId) =>
      SubsequenceKeepsDistinctNames(items, RemoveClick(s, chipId).chips, s.chips);
  }

  /** Appending a catalog name not yet chosen keeps the chips distinct catalog names. */
  lemma AppendKeepsDistinctNames(items: seq<string>, chips: seq<Chip>, chip: Chip)
    requires DistinctCatalogNames(items, chips)
    requires chip.kind == Name && chip.value in items && !IsChipValue(chips, chip.value)
    ensures DistinctCatalogNames(items, chips + [chip])
  {
    var r := chips + [chip];
    forall i, j | 0 <= i < j < |r|
      ensures r[i].value != r[j].value
    {
      assert r[i] == chips[i];
      if j == |chips| {
        assert chips[i] in chips;
      } else {
        assert r[j] == chips[j];
      }
    }
  }

  /** Deleting chips keeps the chips distinct catalog names. */
  lemma SubsequenceKeepsDistinctNames(items: seq<string>, a: seq<Chip>, b: seq<Chip>)
    requires IsSubsequence(a, b)
    requires DistinctCatalogNames(items, b)
    ensures DistinctCatalogNames(items, a)
  {
    SubsequenceMembers(a, b);
    SubsequenceKeepsDistinct(a, b, ValueOf);
  }

  /** Along available events, chips stay distinct catalog names. */
  lemma {:induction false} RunKeepsDistinctNames(items: seq<string>, s: State, events: seq<Event>)
    requires DistinctCatalogNames(items, s.chips)
    requires Feasible(items, s, events)
    ensures DistinctCatalogNames(items, Run(s, events).chips)
    decreases |events|
  {
    if events != [] {
      StepKeepsDistinctNames(items, s, events[0]);
      RunKeepsDistinctNames(items, Step(s, events[0]), events[1..]);
    }
  }

  /**
   In every state reachable from mount through the page, every chip is a
   catalog name and no name is chosen twice. Stated for any catalog; the
   component's own is `Catalog`.
   */
  lemma ReachableChipsAreDistinctNames(items: seq<string>, events: seq<Event>)
    requires Feasible(items, Initial, events)
    ensures DistinctCatalogNames(items, Run(Initial, events).chips)
  {
    RunKeepsDistinctNames(items, Initial, events);
  }

  /** `n` presses of the same key. */
  function Presses(key: string, n: nat): (r: seq<Event>)
    ensures |r| == n
    ensures forall i :: 0 <= i < n ==> r[i] == KeyPressed(key)
  {
    if n == 0 then [] else [KeyPressed(key)] + Presses(key, n - 1)
  }

  /** With no chips, nothing typed and nothing armed, any number of Backspaces changes nothing. */
  lemma {:induction false} BackspacesOnEmptyAreInert(s: State, n: nat)
    requires s.chips == [] && s.query == "" && s.highlighted == None
    ensures Run(s, Presses(BackspaceKey, n)) == s
  {
    if n > 0 {
      BackspaceWithoutChipsIsInert(s);
      assert Presses(BackspaceKey, n)[1..] == Presses(BackspaceKey, n - 1);
      BackspacesOnEmptyAreInert(s, n - 1);
    }
  }

  /**
   Arming survives typing: after Backspace arms a chip, text typed into the
   input keeps the highlight, and the next Backspace removes the armed chip
   although the query is no longer empty.
   */
  lemma ArmedThenTypedStillRemoves(s: State, text: string)
    requires s.query == "" && s.highlighted == None && |s.chips| > 0
    ensures var last := s.chips[|s.chips| - 1];
      var typed := Run(s, [KeyPressed(BackspaceKey), Typed(text)]);
      var after := Step(typed, KeyPressed(BackspaceKey));
      && typed.query == text
      && typed.highlighted == Some(last.id)
      && after.query == text
      && after.highlighted == None
      && after.chips == RemoveId(s.chips, last.id)
  {
    BackspaceArmsLast(s);
    var armed := Step(s, KeyPressed(BackspaceKey));
    assert Run(s, [KeyPressed(BackspaceKey), Typed(text)]) == Run(armed, [Typed(text)]);
    assert [Typed(text)][1..] == [];
    assert Run(armed, [Typed(text)]) == InputChange(armed, text);
  }
}
