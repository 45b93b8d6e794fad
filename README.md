# W3C validator widget: grouping, filtering and highlighting

The widget sends an HTML document to the Nu HTML Checker and shows the
diagnostics it returns. This project models the logic between the parsed
response and what the user sees:

- each diagnostic is normalised with a `theType` field: its sub-type when that
  is a non-empty string, else its type;
- the normalised diagnostics are grouped under the key `theType + message`.
  The key is the plain concatenation of the two strings. Groups appear in the
  order their first message arrives;
- a filter state is kept: the hidden types and the hidden message texts. "Hide"
  buttons append an entry. Filter chips remove every occurrence of one;
- the groups are filtered. Each group gets its visible messages and the number
  it hides. The hidden numbers are added up for the "(n messages hidden)"
  label. Only groups with a visible message are displayed;
- the filter state is restored from storage;
- the in-context view splits the document into lines and highlights the
  message's last line with `substr`.

Strings are sequences of UTF-16 code units, so lengths and `substr` indices
count what JavaScript counts. `Js` models the few built-ins involved:
`filter`, `substr` (with its clamping of negative and out-of-range
arguments), `split` on `'\n'`, and string-keyed objects that keep their
insertion order. Both reduces (grouping and filtering) are methods with loops.
They are proved against the functions `GroupAll` and `FilterAll`, and the
lemmas are about those functions.

Two behaviours of the code that a reader might not expect are kept:

- hiding a type or a message text twice lists it twice, so hiding is not
  idempotent on the state, only on what is shown (`HideTypeTwice`);
- the number of groups is the number of distinct concatenated keys
  (`GroupCount`), not the number of distinct (type, message) pairs. Type
  "A" with text "BC" and type "AB" with text "C" share one group
  (`KeyCollision`).

## Model

| member | source | states |
|---|---|---|
| `Messages.TheType` | src/W3CValidator.js:341 | `theType` is the sub-type when it is present and non-empty, else the type; it is empty exactly when both are |
| `Messages.Normalize` | src/W3CValidator.js:339-342 | a normalised message keeps every raw field and adds `theType` chosen by the sub-type-or-type rule |
| `Messages.NormalizeAll` | src/W3CValidator.js:338-342 | one normalised message per raw message, in order, each with its raw fields and `theType` |
| `Messages.NormalizeAllKeepsMessages` | src/W3CValidator.js:339-342 | normalising keeps every raw message whole: stripping `theType` gives back the input array |
| `Grouping.GroupKey` | src/W3CValidator.js:345 | the key `theType + message`; `SameKeySameGroup` and `KeyCollision` state what sharing a key means |
| `Grouping.AddToGroup` | src/W3CValidator.js:344-351 | one reduce step; `AddToGroupUnder`, `AddToGroupCount`, `ArrivalOrderKept` and `ArrivalOrderExtended` state its effect |
| `Grouping.GroupAll` | src/W3CValidator.js:343-353 | the dictionary the reduce builds; `GroupAllWellFormed`, `GroupAllContents`, `GroupAllKeys`, `GroupAllFirstArrival`, `GroupCount` and `GroupAllConserves` state its properties |
| `Grouping.GroupMessages` | src/W3CValidator.js:343-353 | the in-place reduce builds `GroupAll(ms)`: a well-formed dictionary whose groups are consistent with their keys, each holding exactly the messages with its key, in input order, and the keys listed in the order their first messages arrive |
| `Grouping.GroupAllWellFormed` | src/W3CValidator.js:343-353 | every key is listed once and has an entry; each group is non-empty, stored under `theType + message` and takes both from its first message |
| `Grouping.AddToGroupUnder` | src/W3CValidator.js:344-351 | one reduce step appends the message to its own key's group and changes no other group |
| `Grouping.GroupAllContents` | src/W3CValidator.js:343-353 | the group under any key holds exactly the input messages with that key, in input order (none when no message has it) |
| `Grouping.FirstIndex` | src/W3CValidator.js:343-353 | the index of the first message with a key: that message has the key and none before it does; the input length when there is none |
| `Grouping.FirstIndexAppend` | src/W3CValidator.js:343-353 | appending a message keeps a key's first index when the key occurs already; otherwise the new message is its first occurrence or there is still none |
| `Grouping.GroupAllFirstArrival` | src/W3CValidator.js:343-353 | every group's key has a first message, and the keys are listed in the order their first messages arrive |
| `Grouping.ArrivalOrderKept` | src/W3CValidator.js:344-351 | a reduce step onto an existing key keeps the key order and every listed key's first index |
| `Grouping.ArrivalOrderExtended` | src/W3CValidator.js:344-351 | a reduce step that opens a new group puts its key after every listed key, in arrival order |
| `Grouping.NewKeyFirstIndex` | src/W3CValidator.js:346 | a key without a group has no message among those reduced so far |
| `Grouping.GroupAllKeys` | src/W3CValidator.js:343-353 | a key has a group exactly when some input message has that key |
| `Grouping.MessageInOwnGroup` | src/W3CValidator.js:344-351 | an input message is in the group of a key exactly when that is its own key |
| `Grouping.GroupCount` | src/W3CValidator.js:343-353 | there are as many groups as distinct concatenated keys |
| `Grouping.DistinctLength` | src/W3CValidator.js:343-353 | a key list without repetitions is as long as the set of its keys |
| `Grouping.AddToGroupCount` | src/W3CValidator.js:344-351 | one reduce step keeps the dictionary well formed and adds the new message, and nothing else, to any count over the groups |
| `Grouping.GroupAllConserves` | src/W3CValidator.js:343-353 | counting messages of any class group by group gives the count over the whole input: none lost, none counted twice |
| `Grouping.GroupSizesSum` | src/W3CValidator.js:343-353 | the sizes of the groups, added up over the keys, are the number of input messages |
| `FilterStates.Shown` | src/W3CValidator.js:370-372 | a message is shown when neither its text nor its type is hidden; `HideTypeHides`, `HideMessageHides`, `UnhideTypeShows` and `UnhideMessageShows` state how the buttons change it |
| `FilterStates.ShownBy` | src/W3CValidator.js:370-372 | the callback given to `filter`; `FilterGroupSpec` states what filtering with it keeps |
| `FilterStates.HideType` | src/W3CValidator.js:182-185 | the "Hide type" button appends the type to the hidden types and leaves the hidden texts alone |
| `FilterStates.HideMessage` | src/W3CValidator.js:193-196 | the "Hide message" button appends the text to the hidden texts and leaves the hidden types alone |
| `FilterStates.UnhideType` | src/W3CValidator.js:246-249 | a type chip removes every occurrence of the type, keeps the other types in order with their multiplicities, and leaves the texts alone |
| `FilterStates.UnhideMessage` | src/W3CValidator.js:266-269 | a text chip removes every occurrence of the text, keeps the other texts in order with their multiplicities, and leaves the types alone |
| `FilterStates.HideTypeHides` | src/W3CValidator.js:182-185 | after hiding a type, a message is shown exactly when it was shown before and has another type |
| `FilterStates.HideMessageHides` | src/W3CValidator.js:193-196 | after hiding a text, a message is shown exactly when it was shown before and has another text |
| `FilterStates.UnhideTypeShows` | src/W3CValidator.js:246-249 | un-hiding a type shows its messages again unless their text is hidden, and changes nothing for other types |
| `FilterStates.UnhideMessageShows` | src/W3CValidator.js:266-269 | un-hiding a text shows its messages again unless their type is hidden, and changes nothing for other texts |
| `FilterStates.HideTypeTwice` | src/W3CValidator.js:182-185 | hiding a type twice lists it twice, so the state differs from hiding it once, while the same messages are shown |
| `FilterStates.UnhideAfterHideType` | src/W3CValidator.js:182-185 | un-hiding a type just hidden equals un-hiding it alone, and restores the state when the type was not hidden before |
| `FilterStates.UnhideAfterHideMessage` | src/W3CValidator.js:193-196 | un-hiding a text just hidden equals un-hiding it alone, and restores the state when the text was not hidden before |
| `FilterStates.StoredFilterState` | src/W3CValidator.js:281-293 | a missing or empty stored value gives the initial state; a value that does not parse gives the initial state; otherwise the parsed value |
| `FilterStates.StoreRoundTrip` | src/W3CValidator.js:281-293 | a state saved in a non-empty form that parsing reads back is restored unchanged |
| `Filtering.FilterGroup` | src/W3CValidator.js:368-375 | one filtered group; `FilterGroupSpec` states its fields, visible messages and hidden number |
| `Filtering.FilterAll` | src/W3CValidator.js:365-377 | the filtered dictionary; `FilterGroups`, `FilterAllSizes`, `TotalHidden` and `NothingDisplayed` state its properties |
| `Filtering.NumFilteredMessages` | src/W3CValidator.js:379-384 | the sum of the hidden numbers; `TotalHidden` states that it counts the hidden input messages |
| `Filtering.FilterGroupSpec` | src/W3CValidator.js:368-375 | a filtered group keeps the group's fields; its visible messages are exactly the group's shown messages, in order; its hidden number counts the hidden messages, and the two add up to the group's size |
| `Filtering.FilterGroups` | src/W3CValidator.js:365-377 | the filtering reduce builds `FilterAll`: the same keys in the same order, each group filtered, visible plus hidden equal to the group's size |
| `Filtering.FilteredPrefixStep` | src/W3CValidator.js:367-376 | writing the next key keeps the filtering loop's invariant |
| `Filtering.FilterAllIs` | src/W3CValidator.js:365-377 | once every key is written, the loop's dictionary is `FilterAll`, with the source's keys in order and group sizes conserved |
| `Filtering.FilterAllSizes` | src/W3CValidator.js:374-375 | in every filtered group the hidden number and the visible messages add up to the group's size |
| `Filtering.NumFilteredOfFilterAll` | src/W3CValidator.js:379-384 | summing the filtered groups' hidden numbers sums, over the same keys, the hidden messages of the groups before filtering |
| `Filtering.TotalHidden` | src/W3CValidator.js:379-384 | the label's number is the number of input messages the state hides, that is the input size minus the shown messages |
| `Filtering.Displayed` | src/W3CValidator.js:218-219 | a filtered group is displayed exactly when it has a visible message; the displayed groups keep the dictionary's order |
| `Filtering.VisibleOfFilterAll` | src/W3CValidator.js:365-377 | summing the filtered groups' visible messages sums the shown messages of the groups before filtering |
| `Filtering.DisplayedEmpty` | src/W3CValidator.js:218-219 | nothing is displayed exactly when no group has a visible message |
| `Filtering.NothingDisplayed` | src/W3CValidator.js:218-219 | "No (unfiltered) messages" appears exactly when the filter state hides every input message |
| `Highlighting.HighlightText` | src/W3CValidator.js:94-103 | the three `substr` spans; `HighlightReassembles` and `NegativeLengthRepeats` state what they show |
| `Highlighting.InContext` | src/W3CValidator.js:108-121 | the in-context view; `InContextLines`, `InContextHighlightsColumns` and `InContextShowsDocument` state its lines |
| `Highlighting.HighlightReassembles` | src/W3CValidator.js:94-103 | with a non-negative start and length, the three spans are the text again; inside the text they are the slices before, at and after the range; from a start inside the line, the highlight has the full length exactly when the range fits |
| `Highlighting.NegativeLengthRepeats` | src/W3CValidator.js:94-103 | a negative length highlights nothing and the spans repeat part of the line |
| `Highlighting.HighlightStart` | src/W3CValidator.js:115 | the highlight starts at `firstColumn - 1` when `firstColumn` is present and not 0, else at `lastColumn - hiliteLength` |
| `Highlighting.InContextLines` | src/W3CValidator.js:108-121 | one entry per line of the document; every other line is shown as it is; line `lastLine` is `highlightText` of that line at the start `HighlightStart` gives, `hiliteLength` long; no line is highlighted when `lastLine` names no line |
| `Highlighting.InContextHighlightsColumns` | src/W3CValidator.js:112-116 | with a first column `c` and a highlight that fits on line `lastLine`, that line shows the units before column `c`, then `hiliteLength` highlighted units, then the rest |
| `Highlighting.InContextShowsDocument` | src/W3CValidator.js:108-121 | when the start and length are not negative, the view's lines joined by line feeds are the document |
| `Js.Filter` | src/W3CValidator.js:369-373 | `filter` keeps only elements that pass and never lengthens the array |
| `Js.FilterMultiset` | src/W3CValidator.js:369-373 | `filter` keeps each passing element as often as it occurs and drops every other one |
| `Js.FilterMembers` | src/W3CValidator.js:369-373 | an element is kept exactly when it occurs and passes |
| `Js.FilterIsSubsequence` | src/W3CValidator.js:369-373 | what `filter` keeps is in the original order |
| `Js.FilterAppend` | src/W3CValidator.js:369-373 | filtering a concatenation concatenates the filtered parts |
| `Js.FilterPartition` | src/W3CValidator.js:374-375 | the kept and the dropped elements make up the array, counted with multiplicity |
| `Js.RemoveAll` | src/W3CValidator.js:248 | filtering out one value removes all its occurrences, keeps every other element with its multiplicity, in order |
| `Js.RemoveAppended` | src/W3CValidator.js:248 | removing a value from an array with the value appended removes it from the array |
| `Js.RemoveAbsent` | src/W3CValidator.js:248 | removing a value that does not occur changes nothing |
| `Js.Substr` | src/W3CValidator.js:97-101 | `substr` clamps a negative start from the end and an out-of-range start or length to the string; inside the string it is the slice; with the length omitted it runs to the end of the string |
| `Js.Split` | src/W3CValidator.js:110 | `split` gives one piece more than there are separators, and no piece holds a separator |
| `Js.JoinSplit` | src/W3CValidator.js:110 | joining the pieces of `split` with the separator gives back the string |
| `Js.SplitJoin` | src/W3CValidator.js:110 | splitting separator-free pieces joined with the separator gives back the pieces |
| `Js.Values` | src/W3CValidator.js:218 | `Object.values`: one value per key, in key order, each the value stored under that key |
| `Js.SumOver` | src/W3CValidator.js:381-384 | the left-to-right sum of a weight over the keys; `SumOverOther`, `SumOverUpdate`, `SumOverSameWeights` and `SumOverZero` state its properties |
| `Js.Put` | src/W3CValidator.js:344-350 | writing a key stores the value, appends the key to the order when it is new and keeps the order otherwise |
| `Js.SumOverUpdate` | src/W3CValidator.js:381-384 | replacing one listed entry changes the sum by the difference of its weights |
| `Js.SumOverOther` | src/W3CValidator.js:381-384 | writing an unlisted key leaves the sum over the listed keys alone, and listing it last adds its weight |
| `Js.SumOverSameWeights` | src/W3CValidator.js:381-384 | two weights that agree on every listed entry give the same sum |
| `Js.SumOverZero` | src/W3CValidator.js:381-384 | a sum of non-negative weights is zero exactly when every weight is |
| `Scenarios.SameKeySameGroup` | src/W3CValidator.js:344-351 | two messages with equal keys share one group that keeps the first message's type and text |
| `Scenarios.KeyCollision` | src/W3CValidator.js:345 | type "A" with text "BC" and type "AB" with text "C" are different pairs in one group under "ABC" |
| `Scenarios.TwoErrorsAndAnInfoGrouped` | src/W3CValidator.js:343-353 | two equal errors and an info with another key make two groups, in arrival order, the first holding both errors |
| `Scenarios.TwoErrorsAndAnInfoEntries` | src/W3CValidator.js:369-375 | hiding the errors' type leaves the errors' group no visible message and two hidden, and the info's group whole |
| `Scenarios.OnlySecondDisplayed` | src/W3CValidator.js:218-219 | of two groups only the one with a visible message is displayed |
| `Scenarios.TwoErrorsAndAnInfoFiltered` | src/W3CValidator.js:365-377 | after hiding the errors' type the filtered dictionary is the two groups with those counts, and only the info's group is displayed |
| `Scenarios.OneLineHighlight` | src/W3CValidator.js:108-121 | a one-line document with a message whose first column follows `before` and whose length is that of `marked` shows one line with exactly `marked` highlighted |

## Left out

- The React components, styles, the scroll-into-view effect, the `console.log`
  in `highlightText`, and the collapsible details: presentation only.
- The network request, `XMLSerializer` and the validator's response parsing:
  I/O. The model starts from the parsed `messages` array.
- `localStorage` and `JSON.parse` are parameters of `StoredFilterState`: the
  stored value is passed in, and parsing is a function returning a state or
  failure. A stored JSON value that parses but is not a filter state is not
  modelled.
- The extract view (the message's `extract` field with `hiliteStart`): it is
  rendering only, and no property of it is stated.
- The validation lifecycle: `isValidating`, which disables the Validate
  button while a request is in flight, and the show/hide toggles are UI
  state. The model takes one validated document and its own messages.
- GroupMessages and GroupAll treat every key as an own property of the
  dictionary. In the code the dictionary is a plain `{}`, so a key that names
  an inherited `Object.prototype` member (`constructor`, `toString`,
  `valueOf`, `__proto__`, ...) finds the inherited value: no group is
  created, appending to its missing `messages` throws, and the error handler
  shows no result. The model builds an ordinary group for such a key. The
  Nu HTML Checker's types and sub-types (`error`, `info`, `warning`,
  `fatal`, `io`, `schema`, `internal`) never start such a key.
- Object key order: the model keeps insertion order. JavaScript lists keys
  that look like array indices first, in numeric order. A group key is never
  such a string unless a type and a text concatenate to digits only.
- Numeric fields (`firstColumn`, `lastColumn`, `lastLine`, `hiliteLength`) are
  integers or, for `firstColumn`, absent. `undefined`, `NaN` and fractional
  values are not modelled.
- The text of the "(n messages hidden)" label: formatting only. The number in
  it is modelled (`TotalHidden`).
- Characters outside the Basic Multilingual Plane in the scenarios' literals:
  the helper `Units` that writes them as code units accepts BMP characters
  only. Strings in general are any code-unit sequences.
