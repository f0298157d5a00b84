# Todo list: a verified model of the list state and the row editor

The application is a single-page todo list. Its state is an ordered list of
items `{id, text, completed}`. Pure updates replace the list: add, toggle,
delete, edit and clear completed. Two views are derived from it: the
"items left" counter and the list filtered by the current selection. Each
rendered row also keeps a small editor state of its own: whether it is being
edited, and a draft string. That state decides whether an edit reaches the
list at all.

The model is four modules:

- `Text` (`text.dfy`): `String.prototype.trim`. It strips the WhiteSpace and
  LineTerminator code points of ECMA-262 (sections 12.2 and 12.3) from both ends.
  `IsWhiteSpace` lists them explicitly.
- `Lists` (`lists.dfy`): `Array.prototype.filter` as `Filter`. `IsSubsequence`
  is an independent definition of "order-preserving subsequence".
- `TodoList` (`todo_list.dfy`): the item record and the list operations of
  `src/App.jsx`, as pure functions on `seq<Item>`.
- `TodoItem` (`todo_item.dfy`): the row state machine of `src/TodoItem.jsx`.
  It has a `Step` function over the row's events, the `Callback` a step makes,
  and `Apply`, which routes a callback to the list handler `App` wires to it.

Design points:

- Id generation (`crypto.randomUUID`, or a time-plus-random fallback) is
  replaced by a caller-supplied `freshId`. `AddTodo` requires that it is not
  already in the list.
- `EditTodo` replaces the text verbatim. The trim and non-blank guard lives
  only in the row's `SubmitEdit`, as in the code.
- The filter selection is a plain string. Any value other than `"active"` or
  `"completed"` shows the whole list.
- The row state is a record `{isEditing, draft}`. The draft is seeded once
  when the row mounts and survives outside edit mode. Clicking the text to
  start editing does not reseed it. Only cancel (Escape) resets it to the
  item's text.
- A submit passes the trimmed draft to `onEdit`, not the draft as typed.
- Characters are Unicode scalar values, while JavaScript trims UTF-16 code
  units. Every white-space code point is in the Basic Multilingual Plane, so
  the two agree on what is stripped.

## Model

| member | source | states |
|---|---|---|
| Text.TrimStart | src/App.jsx:30 | the result is the suffix of the input after a maximal run of leading white space; everything dropped is white space and the result does not start with it |
| Text.TrimEnd | src/App.jsx:30 | the result is the prefix of the input before a maximal run of trailing white space; everything dropped is white space and the result does not end with it |
| Text.Trim | src/TodoItem.jsx:9 | the trimmed string has no white space at either end; it is empty exactly when the input is all white space; an already trimmed input comes back unchanged |
| Text.TrimFixesExactlyTrimmed | src/TodoItem.jsx:9 | a string equals its own trim exactly when it is empty or has no white space at either end |
| Text.TrimIdempotent | src/TodoItem.jsx:9 | trimming twice gives the same string as trimming once |
| Text.TrimIsMiddle | src/App.jsx:30 | for any split of the input into white space, a trimmed middle and white space, the trim is that middle |
| Lists.Filter | src/App.jsx:54 | filtering never lengthens the list and every kept element passes the test |
| Lists.FilterMembers | src/App.jsx:46 | an element is in the filtered list exactly when it is in the input and passes the test |
| Lists.FilterIsSubsequence | src/App.jsx:61 | the filtered list is an order-preserving subsequence of the input |
| Lists.FilterAppend | src/App.jsx:56 | filtering a concatenation is the concatenation of the filtered parts |
| Lists.FilterKeepsAll | src/App.jsx:54 | when every element passes the test, filtering returns the input unchanged |
| Lists.FilterComplement | src/App.jsx:61-63 | two complementary tests split the list: the filtered lengths add up to its length |
| TodoList.AddTodo | src/App.jsx:28-37 | blank input (after trimming) leaves the list unchanged; otherwise exactly one item is appended, with the fresh id, the trimmed text and not completed, and the earlier items are unchanged and in order |
| TodoList.AddKeepsDistinctIds | src/App.jsx:32-36 | adding with a fresh id keeps ids pairwise distinct |
| TodoList.AddKeepsTextsTrimmed | src/App.jsx:30-36 | adding keeps every stored text non-blank and equal to its own trim |
| TodoList.ToggleTodo | src/App.jsx:40-43 | length, order, ids and texts are kept; an item's completion flips exactly when its id is the given one; an absent id changes nothing |
| TodoList.ToggleKeepsTextsTrimmed | src/App.jsx:40-43 | toggling keeps every stored text non-blank and trimmed |
| TodoList.ToggleTwiceRestores | src/App.jsx:40-43 | toggling the same id twice restores the original list |
| TodoList.ToggleMovesRemaining | src/App.jsx:40-43 | with distinct ids, toggling a present item lowers the counter by one when it becomes completed and raises it by one when it becomes active |
| TodoList.DeleteTodo | src/App.jsx:45-46 | the result holds exactly the items whose id differs from the given one, as an order-preserving subsequence; no item with that id remains |
| TodoList.DeleteAbsentIsNoOp | src/App.jsx:45-46 | deleting an id not in the list changes nothing |
| TodoList.DeleteRemovesOne | src/App.jsx:45-46 | with distinct ids, deleting a present id removes exactly one item |
| TodoList.EditTodo | src/App.jsx:48-51 | length, ids and completion flags are kept; the matching item's text becomes the new text verbatim, with no trim or blank check; every other item is unchanged |
| TodoList.EditKeepsTextsTrimmed | src/App.jsx:48-51 | editing to a non-blank, trimmed text keeps every stored text non-blank and trimmed |
| TodoList.EditSameTextIsNoOp | src/App.jsx:48-51 | with distinct ids, editing an item to the text it already has leaves the list unchanged |
| TodoList.ClearCompleted | src/App.jsx:53-54 | the result holds exactly the active items, as an order-preserving subsequence, so no completed item is left |
| TodoList.ClearCompletedStable | src/App.jsx:53-56 | clearing completed items is idempotent; the counter is the same before and after, and equals the new length |
| TodoList.Remaining | src/App.jsx:56 | the counter plus the number of completed items is the list length |
| TodoList.FilteredTodos | src/App.jsx:58-67 | "active" shows exactly the unfinished items and "completed" exactly the finished ones, both as order-preserving subsequences; every other selection shows the list unchanged |
| TodoList.ViewsSplit | src/App.jsx:56-67 | the "active" and "completed" views' lengths add up to the list length, and the counter is the length of the "active" view |
| TodoList.AddRaisesRemaining | src/App.jsx:28-36 | adding a non-blank item raises the counter by exactly one |
| TodoList.ToggleKeepsDistinctIds | src/App.jsx:40-43 | toggling keeps ids pairwise distinct |
| TodoList.DeleteKeepsDistinctIds | src/App.jsx:45-46 | deleting keeps ids pairwise distinct |
| TodoList.EditKeepsDistinctIds | src/App.jsx:48-51 | editing keeps ids pairwise distinct |
| TodoList.ClearCompletedKeepsDistinctIds | src/App.jsx:53-54 | clearing completed items keeps ids pairwise distinct |
| TodoList.FilterKeepsDistinctIds | src/App.jsx:45-54 | any filter of a list with distinct ids has distinct ids |
| TodoList.Walkthrough | src/App.jsx:28-67 | from an empty list, add "A" and "B" and complete "A": the "active" view is [B], the "completed" view is [A], and one item is left |
| TodoItem.Mount | src/TodoItem.jsx:4-5 | a new row is not editing and its draft is the item's text |
| TodoItem.StartEdit | src/TodoItem.jsx:53 | clicking the text enters edit mode and leaves the draft as it was |
| TodoItem.TypeDraft | src/TodoItem.jsx:40 | typing replaces the draft and nothing else |
| TodoItem.SubmitEdit | src/TodoItem.jsx:7-12 | the row calls `onEdit` exactly when the trimmed draft is non-blank and differs from the item's text, and then with the row's id and the trimmed draft; it always leaves edit mode and keeps the draft |
| TodoItem.CancelEdit | src/TodoItem.jsx:14-17 | cancel makes no call, resets the draft to the item's text and leaves edit mode |
| TodoItem.Step | src/TodoItem.jsx:23-63 | every call a row makes carries the row's own id; the checkbox alone toggles and the delete button alone deletes; submit and blur call `onEdit` exactly when the trimmed draft is non-blank and differs from the item's text, pass the trimmed draft, leave edit mode and keep the draft; Escape returns the row to its mount state without a call; a text click enters edit mode keeping the draft; typing sets the draft to exactly the typed value and changes nothing else; only typing or Escape change the draft |
| TodoItem.Apply | src/App.jsx:126-133 | no call leaves the list unchanged; `onToggle` flips the completion of exactly the items with its id and keeps ids and texts; `onDelete` keeps exactly the items with another id, in order; `onEdit` replaces the text of exactly the items with its id and keeps ids and completion; only a delete can shorten the list |
| TodoItem.StepKeepsListInvariants | src/TodoItem.jsx:9-10 | whatever the row does, the list it calls back into keeps distinct ids and non-blank, trimmed texts |
| TodoItem.CheckboxTogglesOwnItem | src/TodoItem.jsx:25 | with distinct ids, the checkbox of a row flips its own item's completion and changes nothing else in the list |
| TodoItem.DeleteButtonRemovesOwnItem | src/TodoItem.jsx:61 | with distinct ids, the delete button of a row removes exactly its own item and keeps the rest in order |
| TodoItem.SubmitStoresTrimmedDraft | src/TodoItem.jsx:7-12 | after a submit or a blur of the edit input is applied to the list, the row's item holds the trimmed draft if that is non-blank and its old text otherwise; no other item changes |
| TodoItem.TypedTextReachesList | src/TodoItem.jsx:36-42 | clicking a row's text, typing a value and submitting leaves the row out of edit mode with that value as its draft, and stores the trimmed value in the row's item when it is non-blank; no other item changes |
| TodoItem.BlankDraftSurvivesReentry | src/TodoItem.jsx:4-17 | after a blank draft is submitted, the next edit starts from that blank draft, not from the item's text |

## Left out

- Persistence (`loadTodos`, `saveTodos` and the effect that saves on every change). These are calls into `localStorage` and `JSON`. `loadTodos` also returns whatever `JSON.parse` yields, even a non-array, so no load/save round trip is claimed.
- Id generation (`crypto.randomUUID` or `Date.now() + Math.random()`). This is randomness; it is replaced by the `freshId` parameter of `AddTodo`.
- React rendering, the `useState`/`useMemo` plumbing, the controlled add input and the disabling of the Add button.
- Aria labels, CSS classes and the "item(s) left" pluralisation text.
- The order in which blur, Escape and unmount fire in the edit input. `Step` treats each event on its own. Blur is routed to submit and Escape to cancel.
- `Step` accepts every event in every state. The page only delivers the text click while not editing, and the edit-input events while editing.
