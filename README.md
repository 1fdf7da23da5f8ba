# Option-list state engine of a searchable select control

This project models the state engine behind the `ng-select-custom` dropdown: the
`Option` class (one choice) and the `OptionList` class (the ordered choices of one
control). Each choice carries a value, a label, a colour and the flags `disabled`,
`highlighted`, `selected`, `shown` and `inactive`. The list keeps the cached
highlighted option, the `_hasShown` summary and the `_hasMaxDisplayedOptions`
truncation flag. It offers construction from raw records, lookup by value,
fallback injection, value get/set, single and multiple selection, text
filtering, the capped `filtered` view, highlight navigation and
order-independent value equality.

`src/*.ts` and the compiled `dist/*.js` hold the same algorithm. One model serves
both. The only difference is the colour: `dist/option-list.js:22` passes
`record[colorKey]` to the `Option` constructor, while `src/option-list.ts:31`
passes no colour, which is the same as a colour that is undefined. The model's
`RawOption.color` is therefore a `Maybe<string>`.

Modules and files:

- `option.dfy`, module `Options`: `src/option.ts` and `dist/option.js`. The `Option`
  class has the source's fields, and its methods are specified through
  `State(): OptionState`, a snapshot datatype of all fields.
- `option_list.dfy`, module `OptionLists`: `src/option-list.ts` and
  `dist/option-list.js`.
  - The `OptionList` class holds `opts: seq<OptionState>` and the cached
    highlighted option as a position `highlightedIdx` (-1 for `null`). An `Option`
    reference passed to `select`/`deselect`/`highlightOption` becomes its position.
  - The cap `_maxDisplayedOptions` is set by the constructor and never reassigned, so it
    is a `const` field.
  - `Valid()` is the class invariant: the per-choice `highlighted` flag is set
    exactly on the cached position.
  - The read-only getters (`selection`, `value`, `hasSelected`,
    `hasShownSelected`, `getOptionsByValue`) are functions of the option sequence.
  - The `forEach` loops of `setValue`, `clearSelection`, `resetFilter` and the
    non-blank branch of `filter` are `while` loops with invariants. `SetValue` and
    `ClearSelection` are proved against the transition functions `WithSelection` and
    `WithoutSelection`. `ResetFilter` and `ShowMatches` are proved choice by choice,
    and `Filter` ties their result to `ApplyFilter`. Highlight changes are proved
    against `WithHighlight`.
- `option_list_lemmas.dfy`, module `OptionListLemmas`: properties that relate
  several operations, and client scenarios that combine the class's methods.
- `seqs.dfy`: positions kept by a filter, first-match search, `indexOf` on positions.
- `texts.dfy`: ECMAScript `String.prototype.trim` (WhiteSpace and LineTerminator
  code points as ECMA-262 defines them) and the substring search of
  `String.prototype.indexOf`, written out over Unicode characters.
- `string_order.dfy`: a lexicographic total order on strings and an insertion sort,
  standing for the default `Array.prototype.sort`.
- `wrappers.dfy`: `Maybe<T>`, which stands for `undefined`.

Parameters that stand for code outside the core:

- `norm: string -> string` passed to `Filter` is `Diacritics.strip(_).toUpperCase()`.
  The diacritics module is not part of this model.
- The cap `maxDisplayed: Maybe<nat>` is `None` when the component leaves
  `maxDisplayedOptions` undefined. The component declares it without a default
  (`src/select.component.ts:49`). In JavaScript `length > undefined` is false, so an
  undefined cap never truncates.

Details of the code that the model keeps as written:

- `_hasShown` is refreshed only by `filter` and the constructor, not by
  `pushFallbackOption`. A fallback pushed onto an empty list is shown, yet a filter
  that then hides it reports no "became empty" transition
  (`OptionListLemmas.EmptyListFallbackThenFilter`).
- `_hasMaxDisplayedOptions` is never set by the constructor. `undefined` is falsy, so
  the model starts it as false.
- `inactive` is never set by the `Option` constructor. It is falsy (false) unless it
  is set by `pushFallbackOption`.
- `src/select.component.ts:345` calls the `OptionList` constructor with five
  arguments (including the colour key). The constructor in `src/option-list.ts:20`
  takes four, so that call does not type-check against it: the `src` class is older
  than the compiled `dist/option-list.js:6`, which takes the colour key.

## Model

| member | source | states |
|---|---|---|
| `Options.Option.constructor` | src/option.ts:12-21 | value and label stored as given; colour is the argument, or `#eeeeee` when it is undefined; `disabled`, `highlighted`, `selected` are false, `shown` is true, `inactive` is falsy |
| `Options.Option.Show` | src/option.ts:23-25 | `shown` becomes true and every other field keeps its value |
| `Options.Option.Hide` | src/option.ts:27-29 | `shown` becomes false and every other field keeps its value |
| `Options.Option.Disable` | src/option.ts:31-33 | `disabled` becomes true and every other field keeps its value |
| `Options.Option.Enable` | src/option.ts:35-37 | `disabled` becomes false and every other field keeps its value |
| `Options.Option.UndecoratedCopy` | src/option.ts:39-44 | the copy holds exactly the option's label and value and reads nothing else |
| `Options.Undecorated` | dist/option.js:26-31 | the reported record carries the label and the value of the choice |
| `Options.UndecoratedIgnoresFlags` | src/option.ts:39-44 | no UI flag (disabled, highlighted, selected, shown, inactive) affects the copy |
| `Options.ShowIsIdempotent` | dist/option.js:14-16 | calling `show()` twice leaves the same state as once, and only `shown` differs from the start |
| `Options.HideIsIdempotent` | dist/option.js:17-19 | calling `hide()` twice leaves the same state as once |
| `Options.CopySurvivesFlagChanges` | dist/option.js:26-31 | a copy taken before hiding, disabling, selecting and highlighting equals one taken after |
| `OptionLists.FromRaw` | dist/option-list.js:20-27 | each record becomes a choice with its value, label and colour (default when absent), disabled iff the record's `disabled` is truthy, unselected, unhighlighted, shown, active |
| `OptionLists.Fallback` | src/option-list.ts:59-65 | the pushed fallback carries the given label and value, the default colour, and is the only kind of choice marked inactive |
| `OptionLists.OptionsByValue` | src/option-list.ts:48-52 | exactly the positions whose value equals `v`, in list order, duplicates included |
| `OptionLists.Selection` | src/option-list.ts:106-110 | exactly the positions of the selected choices, in list order |
| `OptionLists.Value` | src/option-list.ts:69-73 | one value per selected choice, in list order; a string occurs iff some selected choice has it as value |
| `OptionLists.HasSelected` | src/option-list.ts:252-256 | true iff some choice is selected |
| `OptionLists.HasShownSelected` | src/option-list.ts:258-262 | true iff some choice is both shown and selected |
| `OptionLists.CappedView` | src/option-list.ts:131-144 | the view is an in-order prefix of the shown positions, of length `min(shown count, cap)`, and holds only shown choices |
| `OptionLists.FirstHighlightedIsPosition` | src/option-list.ts:225-232 | under the class invariant, scanning a view for the highlight flag finds the cached highlighted choice's place in the view, or -1 when it is absent |
| `OptionLists.StepsFromScan` | src/option-list.ts:200-216 | the index found by scanning the view for the highlight flag decides where a forward and a backward step land |
| `OptionLists.OptionList.constructor` | src/option-list.ts:20-40 | absent records give an empty list; otherwise one choice per record in input order; `hasShown` iff non-empty; the first choice (if any) is the only one highlighted and is cached |
| `OptionLists.OptionList.PushFallbackOption` | src/option-list.ts:59-65 | the list grows by exactly one inactive choice at the end with the given label and value; earlier choices, the highlight and `hasShown` are unchanged |
| `OptionLists.OptionList.SetValue` | src/option-list.ts:80-90 | `null` counts as `[]`; afterwards a choice is selected iff its value is in `v`, nothing else changes; the result is true iff some choice's value is in `v`, iff something ends up selected |
| `OptionLists.OptionList.AssignValue` | src/option-list.ts:96-102 | the deprecated setter leaves the same selection as `setValue` |
| `OptionLists.OptionList.Select` | src/option-list.ts:112-117 | with `multiple`, only that choice becomes selected in addition; without it, every other choice is deselected and the selection is exactly that choice |
| `OptionLists.OptionList.Deselect` | src/option-list.ts:119-121 | only that choice loses its selection |
| `OptionLists.OptionList.ClearSelection` | src/option-list.ts:123-127 | every choice is deselected, nothing else changes, and the selection is empty |
| `OptionLists.OptionList.Filtered` | dist/option-list.js:115-127 | returns the capped view of the current choices and sets the truncation flag iff the shown count exceeds the cap |
| `OptionLists.OptionList.Filter` | src/option-list.ts:146-171 | `shown` is recomputed by the filter rule, the highlight is recomputed on the new flags, `hasShown` becomes "some choice shown", and the result is old `hasShown` and nothing shown now |
| `OptionLists.OptionList.ShowMatches` | src/option-list.ts:154-162 | the non-blank branch leaves every field but `shown` as it was, sets `shown` to the match result per choice, and reports whether any choice ended up shown |
| `OptionLists.OptionList.ResetFilter` | src/option-list.ts:173-177 | every choice becomes shown and nothing else changes |
| `OptionLists.OptionList.Highlight` | src/option-list.ts:185-189 | the cache and the single highlight flag move to the choice the highlight rule picks |
| `OptionLists.OptionList.HighlightOption` | src/option-list.ts:191-198 | the previous highlight is cleared and only the given choice (or none) is flagged and cached |
| `OptionLists.OptionList.ClearHighlightedOption` | src/option-list.ts:218-223 | no choice stays highlighted and the cache is empty |
| `OptionLists.OptionList.HighlightNextOption` | src/option-list.ts:200-207 | the highlight moves one step forward in the capped view; no-op at the last item or when the highlighted choice is not in the view |
| `OptionLists.OptionList.HighlightPreviousOption` | src/option-list.ts:209-216 | the highlight moves one step back in the capped view; no-op at the first item or when the highlighted choice is not in the view |
| `OptionLists.OptionList.GetHighlightedIndexFromList` | src/option-list.ts:225-232 | the first place in the given list holding a highlighted choice, or -1 when none does |
| `OptionLists.OptionList.GetHighlightedIndex` | src/option-list.ts:234-236 | the place of the cached highlighted choice within the capped view, or -1; the truncation flag is refreshed |
| `OptionLists.OptionList.GetFirstShown` | src/option-list.ts:264-271 | the first shown choice, or -1 when nothing is shown |
| `OptionLists.OptionList.GetFirstShownSelected` | src/option-list.ts:273-280 | the first choice both shown and selected, or -1 when there is none |
| `OptionLists.OptionList.EqualValues` | src/option-list.ts:283-295 | true iff the two arrays hold the same values with the same multiplicities (false on different lengths) |
| `Seqs.IndicesWhere` | src/option-list.ts:132-134 | the positions an `Array.prototype.filter` keeps: increasing, each satisfies the predicate, every satisfying position is present, empty iff none satisfies it |
| `Seqs.FirstWhere` | src/option-list.ts:264-271 | the first position satisfying the predicate, or -1 iff none does |
| `Seqs.Position` | src/option-list.ts:225-232 | the first position holding a value, or -1 iff the value is absent |
| `Texts.TrimIsEmptyIffAllTrimmable` | src/option-list.ts:149 | `term.trim() === ''` holds exactly when every character of the term is ECMAScript white space or a line terminator |
| `Texts.IndexOf` | src/option-list.ts:157 | the search returns the first position (counted in characters) where the term occurs, or -1 iff it occurs nowhere |
| `Texts.IndexOfFindsIffOccurs` | src/option-list.ts:155-157 | `indexOf(t) > -1` is the substring test |
| `StringOrder.Sort` | src/option-list.ts:289-290 | the sorted copy is a permutation of the input and is sorted |
| `StringOrder.InsertKeepsSorted` | src/option-list.ts:289-290 | inserting one string into a sorted array keeps it sorted |
| `StringOrder.SortIsCanonical` | src/option-list.ts:289-294 | two sorted copies are equal iff the inputs have the same multiset of values |
| `OptionListLemmas.HighlightTargetChoice` | src/option-list.ts:185-189 | the highlight rule picks the first shown-and-selected choice if one exists, else the first shown choice, and none only when nothing is shown |
| `OptionListLemmas.HighlightTargetIgnoresHighlight` | src/option-list.ts:258-280 | the highlight rule reads only `shown` and `selected`, never the current highlight |
| `OptionListLemmas.AtMostOneHighlighted` | src/option-list.ts:191-198 | after a highlight change at most one choice is flagged, and it is the cached one |
| `OptionListLemmas.HighlightKeepsCacheConsistent` | src/option-list.ts:191-198 | a highlight change leaves exactly the cached choice flagged, as `Valid()` demands |
| `OptionListLemmas.CappedViewIsShownPrefix` | dist/option-list.js:115-127 | the view is a prefix of the shown choices of length at most the cap; the truncation flag holds iff the view dropped shown choices; without truncation the view is all shown choices |
| `OptionListLemmas.NextStepMovesForward` | src/option-list.ts:200-207 | a forward step stays put exactly when the highlighted choice is the last item of the capped view or not in it; otherwise it lands on the next item, a shown choice later in the list |
| `OptionListLemmas.PreviousStepMovesBack` | src/option-list.ts:209-216 | a backward step stays put exactly when the highlighted choice is the first item of the capped view or not in it; otherwise it lands on the item before, a shown choice earlier in the list |
| `OptionListLemmas.FilterShowsExactlyMatches` | src/option-list.ts:146-164 | a term that trims to empty shows every choice; otherwise a choice is shown iff its normalised label contains the normalised untrimmed term |
| `OptionListLemmas.FilterKeepsEverythingButShown` | src/option-list.ts:154-162 | filtering changes no field but `shown`, so the selection is unchanged |
| `OptionListLemmas.BlankFilterShowsSomethingIffNonEmpty` | src/option-list.ts:149-152 | in the blank case "something shown" holds iff the list is non-empty |
| `OptionListLemmas.FilterIsIdempotent` | src/option-list.ts:146-164 | filtering twice by the same term leaves the same flags as filtering once |
| `OptionListLemmas.FilterCommutesWithHighlight` | src/option-list.ts:165-168 | filtering and moving the highlight touch different flags, so either order gives the same list |
| `OptionListLemmas.FilterAgainIsNoOp` | dist/option-list.js:131-151 | a second `filter` with the same term leaves the shown flags, the highlight and the shown summary as the first left them |
| `OptionListLemmas.ValueAfterSetValue` | src/option-list.ts:69-90 | after `setValue(vs)` the value getter yields exactly the strings that are in `vs` and are the value of some choice |
| `OptionListLemmas.SetValueEmptyClears` | dist/option-list.js:80-88 | `setValue([])` deselects every choice and leaves an empty selection |
| `OptionListLemmas.FallbackIsSelectableByValue` | src/option-list.ts:59-65 | after a push the list is the old list plus one inactive choice, which lookup by its value finds and `setValue([value])` selects |
| `OptionListLemmas.UnknownValueFindsNothing` | src/option-list.ts:48-52 | a value that no choice has finds no choice |
| `OptionListLemmas.FilterTwice` | src/option-list.ts:146-171 | of two consecutive `filter` calls with the same term on a consistent list, the second returns false, and the list, the highlight and `hasShown` end as one call leaves them |
| `OptionListLemmas.PushFallbackThenSelect` | src/select.component.ts:371-376 | pushing a fallback for `v[0]` and then setting the value `v` reports a match, selects exactly the choices whose value is in `v`, and the new last choice is selected and inactive |
| `OptionListLemmas.EmptyListFallbackThenFilter` | src/option-list.ts:146-171 | on an empty list, a pushed fallback is shown, yet a filter that hides it returns false, because `_hasShown` was not refreshed by the push |
| `OptionListLemmas.FirstChoiceHighlightedAfterConstruction` | src/option-list.ts:20-40 | on a freshly built non-empty list with a non-zero cap, `highlightPreviousOption` followed by `getHighlightedIndex` yields 0: the first choice is highlighted and stepping back from it stays put |
| `OptionListLemmas.HeadLeadsView` | src/option-list.ts:131-144 | a shown first choice is the first item of the capped view whenever the cap admits at least one item |
| `OptionListLemmas.SingleSelectAfterMultiSelect` | src/option-list.ts:112-127 | after any earlier selection, `select(o, false)` leaves exactly `o` selected |
| `OptionListLemmas.EqualValuesExamples` | src/option-list.ts:283-295 | `["a","b"]` equals `["b","a"]`; `["a","a"]` differs from `["a","b"]`; `["a"]` differs from `["a","b"]` |
| `OptionListLemmas.EqualValuesIsOrderIndependent` | dist/option-list.js:256-265 | `equalValues` is symmetric and unchanged by reordering either argument |

## Left out

- Key-name indirection and `String(...)` coercion: each record is taken already read through the value, label and colour keys (`RawOption`). The value is taken to be a string, and a missing label is not modelled.
- A `null` colour field: `dist/option.js:5` defaults only `undefined`. The model has no null, so a present colour is a string.
- A `null`, negative or fractional `maxDisplayedOptions`: in JavaScript these change the comparison and `slice`'s meaning (a `null` cap compares as 0, so it hides every item and sets the truncation flag). The cap is a `nat` or absent.
- `Diacritics.strip` and `toUpperCase`: these are foreign string routines, and `Filter` takes them as the parameter `norm`. Unicode decomposition is not modelled.
- UTF-16 strings: a model string is a sequence of Unicode characters, not of UTF-16 code units. `Texts.IndexOf` therefore counts positions in characters, which differs from JavaScript after a character outside the Basic Multilingual Plane, and lone surrogates cannot be written. The filter uses only `indexOf(t) > -1`, and that test agrees for well-formed strings; `trim` is exact because every trimmable character lies in the Basic Multilingual Plane.
- The exact order of JavaScript's default `sort`, which compares UTF-16 code units: the model sorts by a lexicographic order on characters. `equalValues` gives the same answer under any total order.
- The getters `options`, `hasShown`, `hasMaxDisplayedOptions` and `highlightedOption`: these return a field, and in the model they are the fields `opts`, `hasShown`, `hasMaxDisplayed` and `highlightedIdx`.
- Object identity: `OptionList` holds its options as values, and an `Option` reference is a position. A caller keeping a reference to an `Option` and mutating it behind the list's back (aliasing) is not modelled. Passing `select`/`highlightOption` an option that is not in the list is not modelled either.
- `OptionLists.OptionList.AssignValue`: it delegates to `SetValue` and drops its result, rather than repeating the loop. The resulting state is the same.
- The Angular component layer (`src/select.component.ts`, `dist/select.component.js`) is not part of this model. This covers DOM focus and sizing, event emitters, `setTimeout`, keyboard dispatch, the asynchronous `loadFallbackOption`, the `value` setter's runtime type checks, the text colour computed from the background colour, and the sanitised tag styles. The template and the `.d.ts` declarations carry no behaviour.
