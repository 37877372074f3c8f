# Todo list widget — Dafny model

This project models the state logic of a single-page todo list component
(`TodoApp`, a React function component). The component keeps an ordered list
of todos, a filter (all / active / completed), the text typed into the input
box and the index of the row being dragged. Its handlers add a todo, toggle a
todo's completion, delete a todo, clear the completed todos, switch the
filter, and reorder the list by drag and drop. On every render it derives the
filtered list and three counters (total / active / completed).

Each handler is modelled as a pure function from the old state to the new
one. The `setTodos` and `setInputValue` calls become the fields of the
returned state.

Modules:

- `TodoModel` (`todo.dfy`) holds the `Todo` record, the `Filter` enum and the
  component `State`. It also holds the seed list, the unique-id invariant and
  the whitespace trimming of `String.prototype.trim`.
- `TodoLists` (`lists.dfy`) holds `Array.prototype.filter` (`FilterBy`),
  stated for lists of any element type. It proves that a filter keeps
  exactly the passing elements, in order, and that filtering todos keeps
  their ids unique.
- `TodoOps` (`ops.dfy`) holds add, toggle, delete and clear-completed.
- `TodoView` (`view.dfy`) holds the filtered view and the counters.
- `DragDrop` (`drag.dfy`) holds drag start and the drop splice. It also holds
  a corrected drop that works on visible rows and a corrected drag end that
  forgets the recorded index (see Findings).
- `TodoApp` (`app.dfy`) holds the events the markup wires to handlers, the
  step function `Handle`, and the unique-id invariant across every step.

Inputs the component reads from its environment become parameters:

- The new todo's id, which the source takes from `Date.now()`, is a parameter
  of `AddTodo`.
- The row index of a drag or drop event is a parameter of `DragStart` and
  `Drop`.

The blocking `alert` on blank input is modelled as the `alert` field of
`AddOutcome`, which holds the notice text.

Three behaviours of the code are easy to miss. The model follows the code in
each:

- The new todo stores the input as typed, not trimmed. Only the emptiness
  test uses the trimmed text.
- Drop indices are rows of the filtered view, but the splice is applied to
  the full list. `Drop` models this as written, with indices into the full
  list, so it is the intended move only under the `All` filter.
- Ending a drag without a drop does not clear the recorded drag index. The
  drag-end handler only restores CSS classes. Every row accepts a drop, so a
  later drop of anything on a row uses the stale index. When that index is
  past the end of the list, the handler splices `undefined` into the list and
  the next render throws. `Drop` and `Handle` return `None` in that case (see
  Findings).

## Model

| member | source | states |
|---|---|---|
| TodoModel.SeedTodos | src/components/TodoApp.tsx:14-21 | the seed list has six todos with ids 1 to 6, all distinct; only the first is completed, and only it carries a time note, "3 hours left" |
| TodoModel.InitialState | src/components/TodoApp.tsx:12-21 | the component mounts with the seed list (unique ids), filter "all", an empty input box and no drag in progress |
| TodoModel.TrimStart | src/components/TodoApp.tsx:25 | the result is the input with its longest run of leading whitespace removed: a suffix whose dropped part is all whitespace and which does not start with whitespace |
| TodoModel.TrimEnd | src/components/TodoApp.tsx:25 | the result is the input with its longest run of trailing whitespace removed: a prefix whose dropped part is all whitespace and which does not end with whitespace |
| TodoModel.Trim | src/components/TodoApp.tsx:25 | the trimmed text is never longer than the input and neither starts nor ends with whitespace |
| TodoModel.TrimSlice | src/components/TodoApp.tsx:25 | the trimmed text is the stretch of the input between a blank head and a blank tail |
| TodoModel.TrimEmptyIffBlank | src/components/TodoApp.tsx:25 | `trim()` returns "" exactly when every character of the input is whitespace |
| TodoLists.FilterBy | src/components/TodoApp.tsx:60-64 | every element `filter` keeps passes the test, and the result is never longer than the input |
| TodoLists.FilterIsSubseq | src/components/TodoApp.tsx:51 | a filtered list is an order-preserving subsequence of the original |
| TodoLists.FilterMembers | src/components/TodoApp.tsx:51 | a todo is in the filtered list exactly when it is in the original and passes the test |
| TodoLists.FilterNonePass | src/components/TodoApp.tsx:60-64 | when no element passes the test, the filtered list is empty |
| TodoLists.FilterComplementLength | src/components/TodoApp.tsx:50-52 | filtering with a test and with its negation gives two lists whose lengths add up to the list length |
| TodoLists.SubseqLength | src/components/TodoApp.tsx:51 | a subsequence is never longer than the list it comes from |
| TodoLists.FilterIdentity | src/components/TodoApp.tsx:60-64 | filtering returns the whole list exactly when every element passes |
| TodoLists.FilterIdempotent | src/components/TodoApp.tsx:56 | filtering twice with the same test gives the same result as filtering once |
| TodoLists.FilterAppend | src/components/TodoApp.tsx:60-64 | filtering a concatenation is the concatenation of the filtered parts |
| TodoLists.FilterUnique | src/components/TodoApp.tsx:51 | filtering a list with unique ids leaves the ids unique |
| TodoOps.AddTodo | src/components/TodoApp.tsx:24-38 | blank input (all whitespace, including empty) leaves the state unchanged and raises "Please enter a todo!". Otherwise it raises nothing and appends exactly one todo: the typed (untrimmed) text, the given id, not completed, no time note. The old list is kept as the prefix, the input box is cleared, and filter and drag state are untouched |
| TodoOps.AddKeepsIdsUnique | src/components/TodoApp.tsx:30-36 | adding with an id not already in the list keeps ids unique |
| TodoOps.Toggle | src/components/TodoApp.tsx:41-47 | the length and order are kept. Every todo keeps its id, text and time, and its completion flips exactly when its id matches |
| TodoOps.ToggleInvolution | src/components/TodoApp.tsx:41-47 | toggling the same id twice restores the list |
| TodoOps.ToggleAbsent | src/components/TodoApp.tsx:41-47 | toggling an id not in the list changes nothing |
| TodoOps.ToggleKeepsIdsUnique | src/components/TodoApp.tsx:43-45 | toggling keeps ids unique |
| TodoOps.Delete | src/components/TodoApp.tsx:50-52 | the result is an order-preserving subsequence holding exactly the todos whose id differs, so no todo with that id remains. It is shorter by exactly the number of todos carrying the id, so every copy of a repeated record whose id differs survives |
| TodoOps.DeleteAbsent | src/components/TodoApp.tsx:50-52 | deleting an id not in the list changes nothing |
| TodoOps.DeletePresent | src/components/TodoApp.tsx:50-52 | with unique ids, deleting a present id makes the list one shorter |
| TodoOps.DeleteKeepsIdsUnique | src/components/TodoApp.tsx:51 | deleting keeps ids unique |
| TodoOps.ClearCompleted | src/components/TodoApp.tsx:55-57 | the result is an order-preserving subsequence with no completed todo. It holds exactly the todos that were not completed |
| TodoOps.ClearCompletedIdempotent | src/components/TodoApp.tsx:55-57 | clearing twice gives the same result as clearing once |
| TodoOps.ActivePlusDone | src/components/TodoApp.tsx:67-71 | the active and completed counts add up to the list length |
| TodoOps.ClearCompletedLength | src/components/TodoApp.tsx:55-57 | clearing removes exactly as many todos as are completed |
| TodoOps.ClearCompletedKeepsIdsUnique | src/components/TodoApp.tsx:56 | clearing keeps ids unique |
| TodoView.FilteredTodos | src/components/TodoApp.tsx:60-64 | the view is an order-preserving subsequence of the list. Under "all" it is the whole list. Under "active" it holds exactly the incomplete todos, and under "completed" exactly the completed ones |
| TodoView.ComputeStats | src/components/TodoApp.tsx:67-71 | total is the list length, and total = active + completed. active and completed are the lengths of the "active" and "completed" views |
| TodoView.ClearCompletedMatchesStats | src/components/TodoApp.tsx:55-71 | clearing leaves exactly what the "active" view showed. The new length equals the old active counter, and the new completed counter is 0 |
| DragDrop.Move | src/components/TodoApp.tsx:90-92 | the length is kept and the todo from `from` lands at `to`. Moving forward, the todos in between shift one place up; moving back, they shift one place down. Everything outside that range stays put |
| DragDrop.MovePermutes | src/components/TodoApp.tsx:90-92 | the splice pair is a permutation (equal multisets) |
| DragDrop.MoveInverse | src/components/TodoApp.tsx:90-92 | dragging the moved todo back to where it came from restores the list |
| DragDrop.MoveKeepsIdsUnique | src/components/TodoApp.tsx:90-92 | a move keeps ids unique |
| DragDrop.DragStart | src/components/TodoApp.tsx:76-80 | drag start records the row index and touches nothing else |
| DragDrop.DragEnd | src/components/TodoApp.tsx:98-100 | corrected drag end: the recorded index is forgotten and nothing else changes |
| DragDrop.DropAfterDragEnd | src/components/TodoApp.tsx:87-100 | after the corrected drag end, a drop on any visible row keeps the list, under the drop as written and under the corrected drop |
| DragDrop.Drop | src/components/TodoApp.tsx:87-96 | the drop fails (`None`: `undefined` is spliced in) exactly when the recorded index is past the end of the list. Otherwise the drag record is cleared. With no drag, or a drop on the dragged row, the list is unchanged. In every other case the list is a same-length permutation with the dragged todo at the drop index |
| DragDrop.DropKeepsIdsUnique | src/components/TodoApp.tsx:87-96 | a drop that leaves a state keeps ids unique |
| DragDrop.DropMovesWrongTodoUnderFilter | src/components/TodoApp.tsx:87-96 | counterexample: for any completed a and distinct active b, c, the list [a, b, c] under "active" shows [b, c]. Dragging row 0 onto row 1 gives [b, a, c]: the hidden a moves and the view stays [b, c] instead of [c, b] |
| DragDrop.AbsIndexHolds | src/components/TodoApp.tsx:168-174 | the full-list position computed for the k-th visible row holds a todo that passes the filter, and it is that row's todo |
| DragDrop.FilterBeforeAbsIndex | src/components/TodoApp.tsx:168-174 | the part of the full list before the k-th visible row's position filters to exactly the first k visible rows |
| DragDrop.AbsIndexMonotone | src/components/TodoApp.tsx:168-174 | later visible rows sit later in the full list |
| DragDrop.MoveCommutesWithFilter | src/components/TodoApp.tsx:87-96 | moving between the full-list positions of two visible rows moves the visible list in the same way |
| DragDrop.DropVisible | src/components/TodoApp.tsx:87-96 | corrected drop, defined for every recorded index. The drag record is cleared and the list stays a same-length permutation. A recorded index that is not a visible row leaves the list unchanged. Otherwise the new visible list is the old visible list with the dragged row moved to the drop row |
| DragDrop.DropVisibleAgreesUnderAll | src/components/TodoApp.tsx:87-96 | under the "all" filter, wherever the drop as written leaves a state, the corrected drop gives the same state |
| TodoApp.CanHandle | src/components/TodoApp.tsx:168-174 | a drag start or a drop is made on a row of the current visible list, so its index is a position in the full list. The recorded drag index is not constrained: a drag that ended elsewhere leaves it set |
| TodoApp.Handle | src/components/TodoApp.tsx:131-224 | a step fails (`None`) exactly when a drop meets a recorded index past the end of the list. Otherwise only typing and adding change the input box, only the filter buttons change the filter, and only drag start and drop change the drag record. Typing, switching filter, starting a drag and ending one leave the list alone, and no step grows the list by more than one. Ending a drag changes nothing at all |
| TodoApp.HandleKeepsIdsUnique | src/components/TodoApp.tsx:24-96 | every handler that leaves a state keeps ids unique, given that an add uses an id not already present. A stale drag index inside the list is allowed |
| TodoApp.AddToggleClearSession | src/components/TodoApp.tsx:24-71 | from [a, done b] with "c" typed: add, toggle a, clear completed and select "active". The list becomes [c], the view shows [c] and the counters read 1 / 1 / 0 |
| TodoApp.StaleDropInsertsUndefined | src/components/TodoApp.tsx:87-100 | counterexample: from the seed list, drag row 5 and end the drag off the list, delete todo 6, then drop on row 0. The recorded index 5 is still set and the list has five todos, so the drop fails |
| TodoApp.StaleDropMovesHiddenTodo | src/components/TodoApp.tsx:87-100 | counterexample: from the seed list, drag row 5 and end the drag off the list, select "completed" (one row), then drop on that row. Active todo 6, which is not shown, moves to the top |
| TodoApp.StaleDropInsideList | src/components/TodoApp.tsx:87-100 | counterexample: for any list and any two distinct rows `from` and `to`, drag row `from` and end the drag off the list; the index stays recorded and a drop of anything on row `to` puts the todo from `from` there. After the corrected drag end the same drop keeps the list |
| TodoApp.StaleDropIgnoredWhenCorrected | src/components/TodoApp.tsx:87-100 | on the failing state above, the corrected drop keeps the list and clears the drag record |
| TodoApp.OnlyFirstCompleted | src/components/TodoApp.tsx:60-64 | a list whose only completed todo is the first shows just that todo under the "completed" filter |
| TodoApp.SeedDeleteLast | src/components/TodoApp.tsx:14-21 | deleting todo 6 from the seed list leaves five todos |

## Findings

| source | as written | input that shows it | evidently intended | confidence | as-written member | corrected member |
|---|---|---|---|---|---|---|
| src/components/TodoApp.tsx:87-96 | the drag and drop indices are rows of the filtered view (lines 168-174), but they are spliced into the full `todos` array | the list [done a, b, c] under "active" shows [b, c]. Dragging b (row 0) onto c (row 1) gives [b, a, c]: hidden a moves and the view stays [b, c] | map each visible row to its position in the full list before splicing, so the view becomes [c, b] | not executed | DragDrop.DropMovesWrongTodoUnderFilter | DragDrop.DropVisible |
| src/components/TodoApp.tsx:87-100 | the drag-end handler keeps the recorded index, and the drop handler splices at it without checking that it is a row of the list | from the seed list, drag row 5 and end the drag off the list, delete todo 6, then drop anything (text dragged from the input box, say) on row 0. `splice(5, 1)` removes nothing and `splice(0, 0, undefined)` inserts `undefined`, so the next render reads `.completed` of it and throws | the drag end forgets the recorded index, so a later drop with no drag in progress keeps the list | not executed | TodoApp.StaleDropInsertsUndefined | DragDrop.DragEnd |
| src/components/TodoApp.tsx:87-100 | the same kept index, when it is still a row of the list | drag row 1 of the seed list and end the drag off the list, then drop anything on row 3. `splice(1, 1)` and `splice(3, 0, …)` move todo 2, which was not dragged this time | the drag end forgets the recorded index, so the drop keeps the list | not executed | TodoApp.StaleDropInsideList | DragDrop.DragEnd |

`TodoApp.Handle` keeps the as-written `Drop`, because it models the
component as it behaves. `DragDrop.DropVisibleAgreesUnderAll` shows that the
two drops coincide whenever the filter is "all" and the drop as written
leaves a state.

The second and third rows have one cause: `handleDragEnd` does not clear
`draggedItem`. `DragDrop.DragEnd` is the corrected drag end, and
`DragDrop.DropAfterDragEnd` proves that after it a drop keeps the list under
either drop. `DropVisible` also ignores a recorded index that is not a
visible row, so it never fails (`TodoApp.StaleDropIgnoredWhenCorrected`).
On its own it still moves a todo for a stale index that is a visible row;
only the corrected drag end rules that out. `TodoApp.StaleDropMovesHiddenTodo`
shows the in-list case from the seed list, with a hidden todo moving.

## Left out

- Rendering is not modelled: JSX, Tailwind classes, lucide icons, the
  empty-state messages and the visibility of the clear button
  (src/components/TodoApp.tsx:102-234). These are presentation only.
- The `alert` call is not modelled as a call. It becomes the `alert` text in
  `AddOutcome`, and the state is left unchanged.
- Browser drag APIs are not modelled: `dataTransfer`, `classList` and
  `preventDefault`. `handleDragOver` changes no component state, so it has
  no event in `TodoApp.Event`. `handleDragEnd` changes none either; its
  event `DragEnded` is a step that leaves the state as it is.
- `Date.now()` is a clock read. The id is a parameter instead. Freshness is
  required only by the unique-id lemmas, because the source does not check
  it.
- React `useState` batching and re-rendering are not modelled. Each handler is
  one state-to-state function.
- Ids are unbounded integers, not IEEE doubles. `Date.now()` and the seed ids
  are integers well inside the exact range of a double.
- Strings are sequences of Unicode scalar values, not UTF-16 code units, so
  lone surrogates are not modelled. The whitespace set is the one ECMAScript
  `trim` uses: TAB, VT, FF, ZWNBSP, the Unicode 15 space separators, LF, CR,
  LS and PS.
- DragDrop.Drop: requires the drop index to be a position in the full list.
  That always holds: the drop target is a row of the current render, and
  the visible list is never longer than the full list (`TodoApp.CanHandle`).
  The recorded index may be anything. When it is past the end, the result is
  `None`, not the list holding `undefined`. The next render throws on that
  entry, so no later state exists to model.
- Computing the filtered view and the counters never changes the list. This
  holds by construction: `FilteredTodos` and `ComputeStats` are functions
  that return new values. No lemma states it.
