# Todo list store

A model of the task list kept by the single `App` component of a small React
todo application. The list is an ordered sequence of items, each with an
opaque id, a text and a completion flag. Four handlers replace the whole list:

- `addTodo` trims the input field and, unless the result is empty, appends a
  pending item with a freshly generated id;
- `toggleTodo` negates the flag of every item with the given id;
- `deleteTodo` keeps the items whose id differs from the given one;
- `editTodo` replaces the text of every item with the given id. The edit button
  calls it only when the answer of the edit prompt is truthy, that is, not a
  cancelled dialog and not the empty string.

The list is rendered in a display order. This order is a copy of the list,
sorted by a comparator that puts completed items after pending ones and calls
every other pair equal. `Array.prototype.sort` must be stable (section
23.1.3.30 of ECMA-262, 2023 edition), so the display order is the pending items
followed by the completed items, each group in insertion order.

Files:

- `js_string.dfy`, module `JsString`: `String.prototype.trim` and the whitespace
  set it strips. These are the WhiteSpace and LineTerminator code points of
  ECMA-262, sections 12.2 and 12.3. The module also holds string truthiness.
- `todos.dfy`, module `Todos`: the `Todo` record and the four handlers as
  functions from the old list to the new one. It also holds the edit-button
  guard, the dispatch of a user gesture to its handler, and the invariant
  (unique ids, non-empty texts) that every gesture keeps.
- `display.dfy`, module `Display`: the comparator and a stable insertion sort by
  it. The sort is proved equal to the pending/completed partition, which gives
  permutation, order and stability.

`crypto.randomUUID()` is a parameter `newId` of `Add`. The one thing the model
assumes of it is that the id is not already in the list. The code calls it only
for a non-blank input. That assumption is a
precondition of the lemmas that need it (`AddKeepsUniqueIds`, `AddThenDelete`,
`ApplyKeepsValid`, `RunKeepsValid`). `Add` itself works for any id, as the code
does. The answer of `window.prompt` is a `PromptAnswer`: either `Cancelled`
(the code's `null`) or `Answered(text)`.

`toggleTodo`, `editTodo` and `deleteTodo` act on every item with the given
id, because they use `map` and `filter` (src/App.tsx:34-46). `ToggleAt`,
`EditAt` and `DeleteAt` show that this is the one item with that id while ids
are unique. The edit path checks only that the answer is truthy and does not
trim it (src/App.tsx:97), so the invariant the model proves is non-empty
texts, not non-blank ones.

## Model

| member | source | states |
|---|---|---|
| JsString.TrimStart | src/App.tsx:23 | the result is the longest suffix of the input that does not start with whitespace; everything cut off is whitespace |
| JsString.TrimEnd | src/App.tsx:27 | the result is the longest prefix of the input that does not end with whitespace; everything cut off is whitespace |
| JsString.TrimStartUnique | src/App.tsx:23 | any cut point with only whitespace before it and no whitespace right after it is the one `TrimStart` picks |
| JsString.TrimEndUnique | src/App.tsx:27 | any cut point with only whitespace after it and no whitespace right before it is the one `TrimEnd` picks |
| JsString.TrimHasNoOuterWhitespace | src/App.tsx:27 | the result of `trim()` neither starts nor ends with whitespace |
| JsString.TrimEmptyIffBlank | src/App.tsx:23 | `input.trim()` is the empty (falsy) string exactly when the input consists only of whitespace |
| JsString.TrimOfPadded | src/App.tsx:27 | trimming a text that neither starts nor ends with whitespace, padded with whitespace on both sides, gives back the text |
| JsString.TrimIdempotent | src/App.tsx:27 | trimming twice is trimming once |
| Todos.Add | src/App.tsx:21-31 | a blank input leaves the list unchanged; otherwise the old list is a prefix of the result and exactly one item follows it, with the given id, the trimmed text and `completed` false; that text is non-empty and does not start with whitespace |
| Todos.AddStripsPadding | src/App.tsx:23-29 | submitting a text padded with whitespace on both sides appends exactly one pending item with the text unpadded |
| Todos.AddBlankExample | src/App.tsx:23 | submitting only spaces and a tab leaves the list unchanged |
| Todos.Toggle | src/App.tsx:33-37 | the length, every id and every text are kept position by position; the flag is negated exactly at the positions whose id matches |
| Todos.ToggleTwice | src/App.tsx:34-36 | toggling the same id twice restores the list |
| Todos.ToggleAbsent | src/App.tsx:34-36 | toggling an id no item carries changes nothing |
| Todos.ToggleAt | src/App.tsx:34-36 | with unique ids, toggling the id of item k changes item k's flag and nothing else |
| Todos.Delete | src/App.tsx:39-41 | the result is never longer than the list |
| Todos.DeleteMembers | src/App.tsx:40 | an item is in the result exactly when it is in the list and its id differs from the deleted one |
| Todos.DeleteAppend | src/App.tsx:40 | deleting from a concatenation is the concatenation of the deletions, so the survivors keep their relative order |
| Todos.DeleteAbsent | src/App.tsx:40 | deleting an id no item carries changes nothing |
| Todos.DeleteIdempotent | src/App.tsx:40 | deleting twice equals deleting once |
| Todos.DeleteAt | src/App.tsx:40 | with unique ids, deleting the id of item k removes item k alone, so the length drops by one |
| Todos.Edit | src/App.tsx:43-47 | the length, every id and every flag are kept position by position; the text becomes the new text exactly at the positions whose id matches |
| Todos.EditFromPrompt | src/App.tsx:95-97 | a cancelled prompt or an empty answer leaves the list unchanged; any other answer edits the items with that id to carry it |
| Todos.EditTwice | src/App.tsx:44-46 | a second edit of the same id overrides the first |
| Todos.EditAbsent | src/App.tsx:44-46 | editing an id no item carries changes nothing |
| Todos.EditAt | src/App.tsx:44-46 | with unique ids, editing the id of item k changes item k's text and nothing else |
| Todos.AddKeepsUniqueIds | src/App.tsx:25-29 | appending with an id that is not in the list keeps ids pairwise distinct |
| Todos.ToggleKeepsUniqueIds | src/App.tsx:34-36 | toggling keeps the sequence of ids, so distinct ids stay distinct |
| Todos.EditKeepsUniqueIds | src/App.tsx:44-46 | editing keeps the sequence of ids, so distinct ids stay distinct |
| Todos.DeleteKeepsUniqueIds | src/App.tsx:40 | deleting keeps ids pairwise distinct |
| Todos.AddThenDelete | src/App.tsx:21-41 | adding with an id not in the list and then deleting that id gives back the original list, whatever the input |
| Todos.ApplyKeepsValid | src/App.tsx:57-104 | every gesture (form submit, checkbox, edit button, delete button) keeps ids unique and texts non-empty, given a fresh id for a non-blank submission |
| Todos.RunKeepsValid | src/App.tsx:11-47 | any series of gestures from a valid list, such as the empty one, with fresh ids for non-blank submissions, ends in a valid list |
| Display.Compare | src/App.tsx:74-76 | the comparator answers 0 for equal flags, a negative number when only the second item is completed, a positive one when only the first is |
| Display.CompareIsConsistent | src/App.tsx:74-76 | the comparator is antisymmetric, and both "not after" and "equal" are transitive |
| Display.SortIsPartition | src/App.tsx:74-77 | the stable sort by the comparator yields the pending items in list order followed by the completed items in list order |
| Display.PartitionIsPermutation | src/App.tsx:74-77 | the pending items and the completed items together hold every item of the list, each as often as the list does |
| Display.DisplayIsPermutation | src/App.tsx:74-77 | the display order is a permutation of the list |
| Display.DisplayPendingFirst | src/App.tsx:74-77 | in the display order no completed item precedes a pending one |
| Display.DisplayIsSorted | src/App.tsx:74-77 | the display order is sorted by the comparator given to `sort` |
| Display.DisplayIsStable | src/App.tsx:74-77 | the pending items and the completed items of the display order each appear in their insertion order |
| Display.DisplayExample | src/App.tsx:74-77 | `[A (done), B (pending), C (done)]` is displayed as `[B, A, C]` |

## Left out

- Loading the list from `localStorage` and saving it there with `JSON.parse` and `JSON.stringify` (src/App.tsx:11-19) are left out. This is browser I/O through library code. It also covers the persist/reload round trip and the crash on a malformed stored value. The model's lists start from any valid list; `RunKeepsValid` covers the empty one.
- `crypto.randomUUID()` (src/App.tsx:26) is a foreign source of randomness. It becomes the `newId` parameter; its freshness is a precondition of the lemmas that need it.
- `window.prompt` (src/App.tsx:96) is a blocking browser dialog. Only its answer is modelled, as `PromptAnswer`.
- The controlled input field (src/App.tsx:15, 30, 58-64) and `preventDefault` are left out. They are UI state; `Add` takes the field's value as `input`.
- React's `useState`/`useEffect` scheduling is left out. Each handler is a function from the list it closes over to the list it hands to `setTodos`.
- The JSX, CSS classes and icons (src/App.tsx:49-121) are left out. They are presentation only, and so is the empty-list message.
- Display.Sort: this is a stable insertion sort. The JavaScript engine's own sort algorithm is not modelled. The standard requires it to be stable, and a stable sort by a given comparator has only one possible result. `SortIsPartition` shows that this result is the pending/completed partition.
- JsString.IsWhitespace: strings are sequences of Unicode scalar values, not UTF-16 code units. Lone surrogates cannot be represented. This does not matter to `trim`, because every whitespace code point is in the Basic Multilingual Plane.
