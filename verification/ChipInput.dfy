/**
 The state of the contact chip input and its four event handlers, each one an
 atomic step from a state to a state.

 The state holds the text typed so far, the chips in the order they were
 added, and the id of the chip armed for deletion by Backspace, if any. The
 catalog of contact names is a constant: nothing ever replaces it.
 */
module ChipInput {
  import opened Text
  import opened Seqs

  datatype Option<T> = None | Some(value: T)

  /** A chip is created either from a name or from an e-mail address; only names are ever offered. */
  datatype ChipKind = Name | Email

  datatype Chip = Chip(id: nat, kind: ChipKind, value: string)

  datatype State = State(query: string, chips: seq<Chip>, highlighted: Option<nat>)

  const Catalog: seq<string> := ["John Doe", "Jane Smith", "Bob Johnson", "Nick Giannopoulos"]

  /** The state on mount: nothing typed, no chips, nothing armed. */
  const Initial: State := State("", [], None)

  const BackspaceKey: string := "Backspace"

  // ---------------------------------------------------------------------------
  // The suggestion list
  // ---------------------------------------------------------------------------

  /** Case-insensitive substring match of the query against a catalog name. */
  function Matches(item: string, query: string): (r: bool)
    ensures r <==> IsInfix(Lower(query), Lower(item))
  {
    Includes(Lower(item), Lower(query))
  }

  /**
   Some chip already carries `item` as its value (`Array.prototype.some`,
   scanning the chips from the first).
   */
  function IsChipValue(chips: seq<Chip>, item: string): (r: bool)
    ensures r <==> exists c :: c in chips && c.value == item
  {
    if chips == [] then false
    else
      assert chips == [chips[0]] + chips[1..];
      chips[0].value == item || IsChipValue(chips[1..], item)
  }

  /** Some chip carries the id `id`. */
  predicate HasChipId(chips: seq<Chip>, id: nat)
  {
    exists c :: c in chips && c.id == id
  }

  /** The test one catalog name has to pass to be offered. */
  predicate Offered(query: string, chips: seq<Chip>, item: string)
  {
    Matches(item, query) && !IsChipValue(chips, item)
  }

  /** The query filter as a predicate on names. */
  function MatchesQuery(query: string): string -> bool
  {
    item => Matches(item, query)
  }

  /** The chosen-names filter as a predicate on names. */
  function NotChosen(chips: seq<Chip>): string -> bool
  {
    item => !IsChipValue(chips, item)
  }

  /**
   The names listed under the input: the catalog filtered first by the query,
   then by the names already chosen.
   */
  function Suggestions(items: seq<string>, query: string, chips: seq<Chip>): (r: seq<string>)
    ensures forall x :: x in r <==> x in items && Offered(query, chips, x)
    ensures IsSubsequence(r, items)
    ensures forall x :: multiset(r)[x] == if Offered(query, chips, x) then multiset(items)[x] else 0
  {
    var offered := Both(MatchesQuery(query), NotChosen(chips));
    FilterFuse(items, MatchesQuery(query), NotChosen(chips));
    FilterIsSubsequence(items, offered);
    FilterMultiplicity(items, offered);
    Filter(Filter(items, MatchesQuery(query)), NotChosen(chips))
  }

  // ---------------------------------------------------------------------------
  // Removing chips by id
  // ---------------------------------------------------------------------------

  /**
   The chips whose id differs from `id`, in their original order. Ids come from
   the clock and may repeat, so every chip carrying `id` goes.
   */
  function RemoveId(chips: seq<Chip>, id: nat): (r: seq<Chip>)
    ensures forall c :: c in r <==> c in chips && c.id != id
    ensures !HasChipId(r, id)
    ensures IsSubsequence(r, chips)
    ensures forall c :: multiset(r)[c] == if c.id != id then multiset(chips)[c] else 0
    ensures !HasChipId(chips, id) ==> r == chips
  {
    var keep := (c: Chip) => c.id != id;
    FilterIsSubsequence(chips, keep);
    FilterMultiplicity(chips, keep);
    assert !HasChipId(chips, id) ==> Filter(chips, keep) == chips by {
      if !HasChipId(chips, id) {
        FilterKeepsAll(chips, keep);
      }
    }
    Filter(chips, keep)
  }

  // ---------------------------------------------------------------------------
  // The event handlers
  // ---------------------------------------------------------------------------

  /** The input's change event: the typed text replaces the query; chips and highlight stay. */
  function InputChange(s: State, text: string): (r: State)
    ensures r.query == text
    ensures r.chips == s.chips && r.highlighted == s.highlighted
  {
    s.(query := text)
  }

  /**
   A click on a suggestion: a chip for `item` with the caller-supplied `freshId`
   is appended and the query is cleared. The highlight is left alone.
   */
  function SelectItem(s: State, item: string, kind: ChipKind, freshId: nat): (r: State)
    ensures |r.chips| == |s.chips| + 1
    ensures r.chips[..|s.chips|] == s.chips
    ensures r.chips[|s.chips|] == Chip(freshId, kind, item)
    ensures r.query == ""
    ensures r.highlighted == s.highlighted
  {
    s.(chips := s.chips + [Chip(freshId, kind, item)], query := "")
  }

  /**
   The functional update at App.tsx:39: the highlight is switched off if it
   already names `lastId`, otherwise it moves to `lastId`.
   */
  function ToggleHighlight(prev: Option<nat>, lastId: nat): (r: Option<nat>)
    ensures r.Some? ==> r.value == lastId
    ensures r != prev
  {
    if prev == Some(lastId) then None else Some(lastId)
  }

  /**
   The input's key-down event. Backspace on an empty query with nothing armed
   arms the last chip; Backspace while a chip is armed removes every chip with
   that id and disarms, whatever the query; every other key does nothing.
   */
  function KeyDown(s: State, key: string): (r: State)
    ensures r.query == s.query
    ensures IsSubsequence(r.chips, s.chips)
    ensures r.chips != s.chips ==> r.highlighted == None
    ensures r.highlighted.Some? && r.highlighted != s.highlighted ==>
              r.chips == s.chips && |s.chips| > 0 && r.highlighted.value == s.chips[|s.chips| - 1].id
  {
    SubsequenceReflexive(s.chips);
    if key == BackspaceKey && s.query == "" && s.highlighted == None then
      if |s.chips| > 0 then
        s.(highlighted := ToggleHighlight(s.highlighted, s.chips[|s.chips| - 1].id))
      else
        s
    else if key == BackspaceKey && s.highlighted.Some? then
      s.(chips := RemoveId(s.chips, s.highlighted.value), highlighted := None)
    else
      s
  }

  /** A click on a chip's X button: every chip with that id goes and the highlight is cleared. */
  function RemoveClick(s: State, id: nat): (r: State)
    ensures r.query == s.query
    ensures r.highlighted == None
    ensures forall c :: c in r.chips <==> c in s.chips && c.id != id
    ensures IsSubsequence(r.chips, s.chips)
    ensures forall c :: multiset(r.chips)[c] == if c.id != id then multiset(s.chips)[c] else 0
  {
    s.(chips := RemoveId(s.chips, id), highlighted := None)
  }

  // ---------------------------------------------------------------------------
  // Properties of the suggestion list
  // ---------------------------------------------------------------------------

  /** With nothing typed and nothing chosen, the whole catalog is offered. */
  lemma EmptyQueryOffersAll(items: seq<string>)
    ensures Suggestions(items, "", []) == items
  {
    forall x | x in items
      ensures Offered("", [], x)
    {
      assert OccursAt(Lower(""), Lower(x), 0);
    }
    FilterKeepsAll(items, MatchesQuery(""));
    FilterKeepsAll(items, NotChosen([]));
  }

  /** The name of a chip that is still present is never offered, whatever is typed. */
  lemma ChosenNeverOffered(items: seq<string>, chips: seq<Chip>, item: string)
    requires IsChipValue(chips, item)
    ensures forall query :: item !in Suggestions(items, query, chips)
  {
  }

  /** Matching ignores the case of ASCII letters in the query. */
  lemma MatchIgnoresQueryCase(item: string, query: string)
    ensures Matches(item, Lower(query)) == Matches(item, query)
  {
    LowerIdempotent(query);
  }

  /**
   Typing more characters at the end of the query only narrows the list: the
   new list is obtained from the old one by deleting entries.
   */
  lemma TypingNarrowsSuggestions(items: seq<string>, query: string, more: string, chips: seq<Chip>)
    ensures IsSubsequence(Suggestions(items, query + more, chips), Suggestions(items, query, chips))
  {
    var longer := Both(MatchesQuery(query + more), NotChosen(chips));
    var shorter := Both(MatchesQuery(query), NotChosen(chips));
    forall x
      ensures longer(x) ==> shorter(x)
    {
      ExtendedQueryMatchesLess(x, query, more);
    }
    FilterFuse(items, MatchesQuery(query + more), NotChosen(chips));
    FilterFuse(items, MatchesQuery(query), NotChosen(chips));
    FilterMonotone(items, longer, shorter);
  }

  /** A name that matches a longer query matches every prefix of it. */
  lemma ExtendedQueryMatchesLess(item: string, query: string, more: string)
    ensures Matches(item, query + more) ==> Matches(item, query)
  {
    if Matches(item, query + more) {
      LowerAppend(query, more);
      PrefixIsInfix(Lower(query), Lower(more));
      InfixTransitive(Lower(query), Lower(query + more), Lower(item));
    }
  }

  // ---------------------------------------------------------------------------
  // Properties of the handlers
  // ---------------------------------------------------------------------------

  /**
   Selecting appends exactly one chip at the end, keeps the earlier chips,
   clears the query, keeps the highlight, and takes the name out of every
   later suggestion list while the chip stays.
   */
  lemma SelectItemEffect(s: State, item: string, kind: ChipKind, freshId: nat)
    ensures var r := SelectItem(s, item, kind, freshId);
      && |r.chips| == |s.chips| + 1
      && r.chips[..|s.chips|] == s.chips
      && r.chips[|s.chips|] == Chip(freshId, kind, item)
      && r.query == ""
      && r.highlighted == s.highlighted
      && forall items, query :: item !in Suggestions(items, query, r.chips)
  {
    var r := SelectItem(s, item, kind, freshId);
    assert r.chips[|s.chips|] in r.chips;
  }

  /** Backspace on an empty query with nothing armed arms the last chip and removes nothing. */
  lemma BackspaceArmsLast(s: State)
    requires s.query == "" && s.highlighted == None && |s.chips| > 0
    ensures KeyDown(s, BackspaceKey) == s.(highlighted := Some(s.chips[|s.chips| - 1].id))
  {
  }

  /** The "switch off" arm of the toggle can only fire when the highlight already names the last chip. */
  lemma ToggleSwitchesOffOnlyWhenArmed(prev: Option<nat>, lastId: nat)
    ensures ToggleHighlight(prev, lastId) == None <==> prev == Some(lastId)
    ensures ToggleHighlight(None, lastId) == Some(lastId)
  {
  }

  /** Backspace with no chips, an empty query and nothing armed changes nothing. */
  lemma BackspaceWithoutChipsIsInert(s: State)
    requires s.query == "" && s.highlighted == None && s.chips == []
    ensures KeyDown(s, BackspaceKey) == s
  {
  }

  /**
   Backspace while a chip is armed removes every chip with that id, keeps the
   rest in order and disarms, whatever the query holds.
   */
  lemma BackspaceRemovesArmed(s: State)
    requires s.highlighted.Some?
    ensures var r := KeyDown(s, BackspaceKey);
      && r.query == s.query
      && r.highlighted == None
      && (forall c :: c in r.chips <==> c in s.chips && c.id != s.highlighted.value)
      && IsSubsequence(r.chips, s.chips)
      && (forall c :: multiset(r.chips)[c] == if c.id != s.highlighted.value then multiset(s.chips)[c] else 0)
  {
  }

  /** Keys other than Backspace, and Backspace while typing with nothing armed, change nothing. */
  lemma KeyDownIgnored(s: State, key: string)
    requires key != BackspaceKey || (s.query != "" && s.highlighted == None)
    ensures KeyDown(s, key) == s
  {
  }

  /** Clicking X removes the chips with that id and disarms; an unknown id leaves the chips alone. */
  lemma RemoveClickEffect(s: State, id: nat)
    ensures var r := RemoveClick(s, id);
      && r.highlighted == None
      && !HasChipId(r.chips, id)
      && (!HasChipId(s.chips, id) ==> r.chips == s.chips)
  {
  }

  /**
   Two Backspaces on an empty query first arm the last chip, then remove it;
   when no earlier chip shares its id, exactly the last chip goes.
   */
  lemma ArmThenRemove(s: State)
    requires s.query == "" && s.highlighted == None && |s.chips| > 0
    ensures var last := s.chips[|s.chips| - 1];
      var armed := KeyDown(s, BackspaceKey);
      var removed := KeyDown(armed, BackspaceKey);
      && armed.chips == s.chips
      && armed.highlighted == Some(last.id)
      && removed == State("", RemoveId(s.chips, last.id), None)
      && ((forall i :: 0 <= i < |s.chips| - 1 ==> s.chips[i].id != last.id) ==>
            removed.chips == s.chips[..|s.chips| - 1])
  {
    var n := |s.chips|;
    var last := s.chips[n - 1];
    var keep := (c: Chip) => c.id != last.id;
    assert s.chips == s.chips[..n - 1] + [last];
    FilterAppend(s.chips[..n - 1], [last], keep);
    if forall i :: 0 <= i < n - 1 ==> s.chips[i].id != last.id {
      FilterKeepsAll(s.chips[..n - 1], keep);
    }
  }
}
