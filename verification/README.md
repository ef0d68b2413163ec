# Contact chip input — a Dafny model

The repository is one React component, `App`. It is a text input above a
fixed catalog of four contact names. Typing filters the catalog. Clicking a
suggestion turns it into a "chip": a removable token that shows the name and
a derived e-mail address. Backspace on an empty input arms the last chip. A
second Backspace deletes the armed chip. Each chip also has an X button that
deletes it.

This project models that component as an immutable state record and pure
transitions:

- `Text.dfy`: the JavaScript string operations the component uses. These are
  `toLowerCase` (ASCII letters), the `\s` class and `String.prototype.includes`.
- `Seqs.dfy`: order-preserving `filter`, subsequences, and distinct keys.
- `ChipInput.dfy`: the state `(query, chips, highlighted)` and the constant
  catalog. It also holds the suggestion filter, the four event handlers, and
  lemmas about each handler.
- `Display.dfy`: the e-mail label shown beside every chip and suggestion.
- `Reachability.dfy`: event sequences starting from the mounted state, and
  the invariants every reachable state keeps.
- `Examples.dfy`: the query "jo" run against the real catalog.

Each handler is one atomic step. Chip ids come from `Date.now()`, so the
caller supplies them, and the model never assumes they are distinct. Two
chips with the same id are both removed by one Backspace or one X click.

The model keeps these behaviours of the code:

- Selecting a suggestion leaves the highlight as it is (src/App.tsx:28-32,
  `ChipInput.SelectItem`).
- Backspace removes the armed chip whatever the query holds (src/App.tsx:41).
  Typing after arming keeps the highlight, so an armed chip can coexist with a
  non-empty query (`Reachability.ArmedThenTypedStillRemoves`).
- The X button clears the highlight every time, even when the removed chip
  was not the armed one and even for an id no chip has (src/App.tsx:75,
  `ChipInput.RemoveClickEffect`).
- The toggle at src/App.tsx:39 runs only while nothing is armed, so it always
  arms the last chip (`ChipInput.BackspaceArmsLast`).
- Selecting a name that is already a chip would add a duplicate chip. The
  page never offers such a name, because the suggestion list excludes chosen
  names (`Reachability.ReachableChipsAreDistinctNames`).

## Model

| member | source | states |
|---|---|---|
| Text.LowerChar | src/App.tsx:96 | `toLowerCase` on one character maps an ASCII capital to the small letter 32 code points above it, leaves every other character alone, and never yields a capital |
| Text.Lower | src/App.tsx:96 | `toLowerCase` keeps the length and lowercases each position independently |
| Text.ReplaceWhitespace | src/App.tsx:70 | `replace(/\s/g, '_')` keeps the length, turns every `\s` character into `_` and keeps every other character |
| Text.Includes | src/App.tsx:96 | `includes` is true exactly when the pattern occurs as a contiguous piece of the text at some position; the empty pattern occurs in every text |
| Seqs.Filter | src/App.tsx:96-97 | `filter` returns only elements of the input that pass the predicate, keeps every element that passes, and never grows the list |
| Seqs.FilterIsSubsequence | src/App.tsx:95-97 | `filter` keeps the surviving elements in their original order |
| Seqs.FilterMultiplicity | src/App.tsx:95-97 | `filter` keeps every occurrence of a passing element and drops every occurrence of the others |
| Seqs.FilterFuse | src/App.tsx:95-97 | the two chained filters of the suggestion list equal one filter by the conjunction of their tests |
| Seqs.FilterMonotone | src/App.tsx:96 | a weaker test keeps a superset of what a stronger test keeps, with the same order |
| Seqs.SubsequenceKeepsDistinct | src/App.tsx:43 | deleting elements never creates a repeated key |
| ChipInput.Matches | src/App.tsx:96 | a name passes the query filter exactly when the lowercased query is a contiguous piece of the lowercased name |
| ChipInput.IsChipValue | src/App.tsx:97 | the `some` scan over the chips is true exactly when some chip's value equals the name |
| ChipInput.Suggestions | src/App.tsx:95-97 | the suggestions are exactly the catalog names, in catalog order and with their multiplicity, that contain the query case-insensitively and equal no chip's value |
| ChipInput.EmptyQueryOffersAll | src/App.tsx:95-97 | with an empty query and no chips, the whole catalog is offered |
| ChipInput.ChosenNeverOffered | src/App.tsx:97 | a name that is the value of a present chip is absent from the suggestions for every query |
| ChipInput.MatchIgnoresQueryCase | src/App.tsx:96 | lowercasing the query first does not change whether a name matches |
| ChipInput.TypingNarrowsSuggestions | src/App.tsx:95-97 | appending characters to the query yields a subsequence of the previous suggestion list |
| ChipInput.ExtendedQueryMatchesLess | src/App.tsx:96 | a name that matches a query also matches every prefix of that query |
| ChipInput.RemoveId | src/App.tsx:43 | removing by id drops every chip with that id, keeps all other chips in order and multiplicity, and returns the list unchanged when no chip has that id |
| ChipInput.InputChange | src/App.tsx:24-26 | typing replaces the query and touches neither chips nor highlight |
| ChipInput.SelectItemEffect | src/App.tsx:28-32 | selecting appends exactly one chip `{id, kind, item}` after the unchanged earlier chips, clears the query, keeps the highlight, and keeps `item` out of every suggestion list while that chip stays |
| ChipInput.SelectItem | src/App.tsx:28-32 | selecting appends exactly one chip `{id, kind, item}` after the unchanged earlier chips, clears the query and keeps the highlight |
| ChipInput.ToggleHighlight | src/App.tsx:39 | the toggle always changes the highlight, and the only id it can set is the last chip's |
| ChipInput.KeyDown | src/App.tsx:34-46 | a key press never changes the query and only deletes chips. When chips change, the highlight ends up cleared. A newly set highlight names the last chip, which is kept |
| ChipInput.BackspaceArmsLast | src/App.tsx:35-40 | Backspace with an empty query and nothing armed sets the highlight to the last chip's id and changes nothing else |
| ChipInput.BackspaceWithoutChipsIsInert | src/App.tsx:35-37 | Backspace with an empty query, nothing armed and no chips changes nothing |
| ChipInput.BackspaceRemovesArmed | src/App.tsx:41-44 | Backspace while a chip is armed removes every chip with that id, keeps every other chip in order and with its multiplicity, clears the highlight and keeps the query, whatever the query is |
| ChipInput.KeyDownIgnored | src/App.tsx:34-46 | any other key, and Backspace with a non-empty query and nothing armed, leave the state unchanged |
| ChipInput.RemoveClick | src/App.tsx:73-76 | the X button removes exactly the chips with that id, keeps the rest in order and with their multiplicity, keeps the query and always clears the highlight |
| ChipInput.RemoveClickEffect | src/App.tsx:73-76 | after an X click no chip has that id; if none had it, the chip list is unchanged, but the highlight is still cleared |
| ChipInput.ArmThenRemove | src/App.tsx:35-44 | two Backspaces on an empty query first arm the last chip without removing anything, then remove it and disarm; if no earlier chip shares its id, exactly the last chip goes |
| Display.EmailLabel | src/App.tsx:70 | the label is ten characters longer than the value and ends with `@email.com`. Each whitespace position of the value becomes `_` and every other character is lowercased, so the local part has no whitespace and no capital letters |
| Display.EmailLabelIgnoresCase | src/App.tsx:110 | names that differ only in the case of ASCII letters get the same label |
| Display.LocalPartIsNormal | src/App.tsx:110 | the local part is a fixed point of the label transformation: deriving a label from it reproduces the same label |
| Reachability.StepKeepsHighlight | src/App.tsx:28-46 | every event handler preserves "an armed id belongs to some chip" |
| Reachability.RunKeepsHighlight | src/App.tsx:24-76 | any sequence of events preserves "an armed id belongs to some chip" |
| Reachability.ReachableHighlightNamesChip | src/App.tsx:21 | in every state reached from the mounted state, the armed id, if any, is the id of an existing chip |
| Reachability.StepKeepsDistinctNames | src/App.tsx:97-101 | an event the page can deliver keeps chips as distinct catalog names |
| Reachability.ReachableChipsAreDistinctNames | src/App.tsx:95-101 | along events the page can deliver, every chip is a catalog name of kind `name` and no name is chosen twice. The lemma holds for any catalog, and the component's catalog is one instance |
| Reachability.BackspacesOnEmptyAreInert | src/App.tsx:35-37 | with no chips, an empty query and nothing armed, any number of Backspaces changes nothing |
| Reachability.ArmedThenTypedStillRemoves | src/App.tsx:41-44 | after arming, typing keeps the highlight, and the next Backspace removes the armed chip even though the query is not empty |
| Examples.QueryJoExample | src/App.tsx:20 | on the real catalog with no chips, the query "jo" offers exactly "John Doe" and "Bob Johnson", in that order |

## Left out

- Rendering, layout, CSS classes and the highlight colours (src/App.tsx:52-116) are presentation only.
- Input focus via `useRef`/`useEffect` is a DOM side effect that holds no state.
- Avatar images are asset references. Any chip or suggestion whose name is not one of the first three catalog names shows the last image.
- `Date.now()` reads a clock, so the chip id is a parameter of `SelectItem` and of the `SuggestionClicked` event.
- React's asynchronous state batching is left out. Each handler runs as one atomic step, and the functional updates read the state the handler started from.
- The browser's own editing on Backspace is left out. The query changes only through the change event (`InputChange`).
- `Text.LowerChar`: lowercases ASCII letters only. Full Unicode `toLowerCase` is not modelled, so names with non-ASCII capitals match differently than in a browser.
- `setItems` is never called, so the catalog is the constant `ChipInput.Catalog`.
- JavaScript strings are UTF-16 code units, but the model uses Dafny characters. The two agree for every catalog name and for all Basic Multilingual Plane text without lone surrogates.
