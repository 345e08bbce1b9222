# To-do list client: drag-reorder engine and request rules

A Dafny model of the client-side logic of a browser to-do list
(`script.js`). It renders a list fetched from a REST collection of records
`{id, content, completed, position}`. Users reorder items by drag and
drop, and every change is sent back to the collection. The model covers
the part with real logic:

- **Snapshot ordering** (`Snapshot`). `fetchTodos` sorts the fetched
  records by ascending `position`. The model proves the result sorted, a
  permutation of the input and stable. It also proves that a sorted
  sequence is determined by its equal-position subsequences, so every
  stable ascending sort returns this same sequence.
- **Insertion target** (`DragTarget`). `getDragAfterElement` folds over
  the items not marked as dragged. It keeps the item whose midpoint lies
  below the pointer and nearest to it, the earliest one on a tie. If no
  item lies below the pointer, it returns nothing. Offsets are doubled
  (`2*y - 2*top - height`), which removes the division by two without
  changing their signs or their order.
- **Reorder engine** (`Reorder`). The rendered list is a class
  `TodoList` holding the item ids in document order and the item being
  dragged. The `dragover` handler moves the dragged item in front of the
  chosen target, or to the end when there is none. The result is a
  permutation, the other items keep their relative order, and the dragged
  item lands last or right before the target. `saveTodosOrder` pairs
  every item with its index and sends one position update per item,
  strictly in list order. The model proves that after these updates the
  last update for each item asks for its index. If the store applies
  them, the next render shows the order the user dropped.
- **Mutation payloads** (`Mutations`). `addTodo` rejects only the empty
  string. Otherwise it posts `{content, completed: false, position:
  count}`. The model proves the new record renders last while every stored
  position is below the count, and not last once some stored position
  exceeds it.
  `toggleTodoCompletion` asks for the negated stored flag. `loadEditNote`
  always shows the edited text but sends nothing when the text is blank
  under JavaScript's `trim`.

Network calls are not performed. Fetched data and the fetched count are
parameters, and each operation returns the requests it would send as
values of `Todos.Request`. Element geometry is a parameter
`boxOf: Id -> Box` with integer `top` and `height`. Ids stand for the
list's elements, which are distinct nodes. So `TodoList.Valid` requires
distinct ids, and `Render` requires the fetched records to have distinct
ids, as the keys of a REST collection do.

Three behaviours of the code a reader may not expect:
- `loadEditNote` writes the new text to the display first (script.js:167)
  and only then skips the update of a blank note ("avoid adding empty
  notes", script.js:170). A blank edit is therefore shown, though never
  sent.
- `addTodo` checks only for the empty string, so text made only of
  spaces is posted as it is (script.js:90).
- A new record's position is the record count (script.js:95), and
  `deleteTodo` never renumbers the records that remain
  (script.js:102-105). After the records at positions 0 and 1 of five are
  deleted, three remain at positions 2, 3 and 4, the count is 3, and the
  next record created at position 3 is listed before the one at 4
  (`Mutations.AddedTodoNotLast`).

## Model

| member | source | states |
|---|---|---|
| `Snapshot.FetchTodos` | script.js:7-10 | the snapshot is sorted by non-decreasing position and is a permutation (same multiset) of the fetched records |
| `Snapshot.FetchTodosStable` | script.js:9 | records of equal position keep the order in which they were fetched |
| `Snapshot.StableSortUnique` | script.js:9 | two sorted sequences with the same equal-position subsequences are equal, so any stable ascending sort yields `FetchTodos` |
| `Snapshot.AppendedRecordSortsLast` | script.js:9 | a record whose position exceeds every fetched position is listed last, and the others keep their snapshot order |
| `Snapshot.RenderFollowsPositions` | script.js:7-10 | when each record's position is the index of its id in a list of distinct ids, the snapshot lists exactly that order |
| `DragTarget.TwiceOffset` | script.js:75-76 | the integer equals twice the offset `y - top - height / 2`, and is negative exactly when the element's midpoint lies below the pointer |
| `DragTarget.TwiceOffsetOrder` | script.js:77 | comparing doubled offsets gives the same answer as comparing the offsets, both between two elements and against zero |
| `DragTarget.Candidates` | script.js:71 | the candidates are exactly the list items other than the one being dragged |
| `DragTarget.Step` | script.js:74-82 | the callback returns either the accumulator or the new candidate; a candidate below the pointer leaves a found accumulator whose offset is at least its own; a found accumulator never gets a smaller offset; it is replaced only by a negative offset strictly greater than its own, so ties keep the earlier |
| `DragTarget.Reduce` | script.js:73-84 | the fold ends with the nearest candidate below the pointer (negative offset, no larger negative offset, every earlier one strictly smaller), and ends in its seed exactly when no candidate lies below the pointer |
| `DragTarget.NearestBelowUnique` | script.js:77 | at most one candidate is the nearest below the pointer, with the earliest winning a tie |
| `DragTarget.GetDragAfterElement` | script.js:70-85 | the target is a list item other than the dragged one, lies below the pointer, is nearest among those below, and is the unique nearest-below candidate; there is no target exactly when no other item lies below the pointer |
| `Reorder.Reflow` | script.js:60-64 | the result is one item longer than the list without the dragged item, and it contains the dragged item |
| `Reorder.ReflowKeepsOthersInOrder` | script.js:60-64 | moving the dragged item leaves the relative order of all other items unchanged |
| `Reorder.ReflowPermutes` | script.js:60-64 | moving the dragged item yields a permutation of the list with no repeated item |
| `Reorder.ReflowPlacesDragged` | script.js:60-64 | with no target the dragged item is last; with target `t` it sits immediately before `t` |
| `Reorder.Placements` | script.js:134-139 | one pair per item, in list order, whose position is the item's zero-based index |
| `Reorder.SaveTodosOrder` | script.js:133-147 | exactly one position update per item, issued in list order, each setting the item's index |
| `Reorder.PersistedPositions` | script.js:142-146 | whatever was sent before, after the updates the last position update for each item asks for its index |
| `Reorder.DropRestoresOrder` | script.js:133-147 | if the store keeps for each record the position its last update asked for, the next snapshot lists the records in the dropped order |
| `Reorder.DropAsWrittenRevertsOrder` | script.js:50-55 | two records at positions 0 and 1, the second dragged above the first: the list shows b, a, but with nothing sent the next snapshot is a, b again |
| `Reorder.TodoList.constructor` | script.js:4 | the list starts empty with nothing dragged |
| `Reorder.TodoList.Render` | script.js:13-44 | the list is rebuilt as the ids of the sorted snapshot, in order, with no item marked as dragged |
| `Reorder.TodoList.DragStart` | script.js:46-49 | the item is marked as dragged; the list is unchanged |
| `Reorder.TodoList.DragOver` | script.js:56-65 | without a dragged item the list is unchanged; otherwise it becomes the reflow before the chosen target: a permutation, with other items in order and the dragged item last or right before the target |
| `Reorder.TodoList.DragEnd` | script.js:50-55 | the corrected handler unmarks the item, keeps the list and sends one position update per item in list order |
| `Reorder.TodoList.DragEndAsWritten` | script.js:50-55 | the handler as written unmarks the item, keeps the list and sends nothing |
| `Mutations.AddTodo` | script.js:88-99 | empty text sends nothing and keeps the field; other text posts `{content, completed: false, position: count}` and clears the field |
| `Mutations.AddedTodoRendersLast` | script.js:92-96 | while stored positions are below the count, the created record is rendered after all existing ones |
| `Mutations.AddedTodoNotLast` | script.js:88-105 | when some stored position exceeds the count, as after `deleteTodo` removes a low position, the created record is not listed last |
| `Mutations.ToggleTodoCompletion` | script.js:108-124 | the update asks for the negation of the stored flag, and the completed mark equals the flag sent |
| `Mutations.ToggleTwiceRestores` | script.js:110-114 | toggling twice asks for the original flag again |
| `Mutations.TrimStart` | script.js:170 | the result is the suffix left after a blank prefix, and it does not start with whitespace |
| `Mutations.TrimEnd` | script.js:170 | the result is the prefix left before a blank suffix, and it does not end with whitespace |
| `Mutations.Trim` | script.js:170 | the result is a slice of the text with only whitespace before and after it, and it neither starts nor ends with whitespace |
| `Mutations.TrimEmptyIffBlank` | script.js:170 | trimming leaves the empty string exactly when every character is ECMAScript whitespace or a line terminator |
| `Mutations.LoadEditNote` | script.js:166-178 | the edited text is always displayed; an update `{id, content}` is sent exactly when the text is not blank |

## Findings

| source | as written | input that shows it | evidently intended | confidence | as-written member | corrected member |
|---|---|---|---|---|---|---|
| script.js:50-55 | the `dragend` handler calls `todo.classList.add` on the fetched plain record, which has no `classList`; the call throws before `saveTodosOrder()` on line 54, so a drop is never persisted | records a (position 0) and b (position 1), b dragged above a: the list shows b, a, nothing is sent, and the next render shows a, b | persist the dropped order: one position update per item, each with its index | high; not executed | Reorder.TodoList.DragEndAsWritten | Reorder.TodoList.DragEnd |

`Reorder.DropAsWrittenRevertsOrder` exhibits the as-written behaviour on
that input. `Reorder.DropRestoresOrder` proves the intended property of
the corrected handler. The `dragstart` handler makes the same mistake
(script.js:48), but only after it adds the `dragging` class, so its
modelled effect is the intended one.

## Left out

- DOM construction, event wiring and the `task-hover` class changes
  (script.js:15-53) are not modelled. They are presentation only.
- The `editNote` input swap (script.js:150-163) is not modelled. It is
  presentation only.
- The `axios` calls and the loader interceptors (script.js:192-223) are
  left out. Requests are values, and the shared loader flag has no effect
  on the logic.
- `deleteTodo` (script.js:102-105) is left out. It sends a `DELETE` for
  one id and re-renders, and what the store does with it is not part of
  this repository.
- `getTodosCount` (script.js:127-130) becomes the `count` parameter of
  `AddTodo`.
- The fetch in `renderTodos` and `toggleTodoCompletion` becomes the
  parameter `data` or `stored`.
- The store's handling of `PATCH`, `PUT` and `POST` is not modelled.
  `Reorder.DropRestoresOrder` states what it assumes of the store as a
  precondition. The `PUT` body carries only `id` and `content`, as in the
  source. A store that replaced whole records on `PUT` would drop
  `completed` and `position`, but that store is not part of this model.
- Asynchrony is not modelled. Handlers run to completion one at a time,
  and `dragend` does not await `saveTodosOrder`. Requests that fail or
  interleave with later events are out of scope, and the source has no
  retry or rollback to model.
- Real pixel geometry and floating point are abstracted. Boxes have
  integer `top` and `height` taken as the layout at the event.
- The browser's whitespace handling when `innerText` is written and read
  back (script.js:167, 175) is not modelled. The content sent is the
  text as typed.
- The re-render after each mutation (script.js:98, 104, 123) is not
  modelled as a separate step. It is `TodoList.Render` applied to the
  next fetch.
- The browser's own sort algorithm is not modelled; the snapshot uses an
  insertion sort instead. Its result is the same, because the browser's sort is
  stable and `Snapshot.StableSortUnique` shows a stable ascending sort
  has only one result.
