# Task list of the to-do app, modelled in Dafny

The app (`src/App.jsx`) keeps one ordered list of task records. Its
event handlers replace that list with a new one:

- "Add Task" prepends a new record unless the text is blank;
- the checkbox flips the completed flag of the tasks carrying an id;
- the delete button removes the tasks carrying an id;
- "Clear Done" removes every completed task;
- a drag-and-drop moves one task to a new index.

The list is shown through one of three filters (All, Active,
Completed). It is exported as CSV rows.

The model has five modules:

- `Tasks` holds the record, and the `trim` test that `add` applies.
- `Seqs` holds the array operations the handlers use, written on sequences:
  - JavaScript's `filter` is `Keep`, and the indices it keeps are `Positions`;
  - the two `splice` forms are `Remove` and `Insert`, and `Moved` composes them.
- `TaskList` holds the filter views, add, toggle, delete and "Clear Done". Each is a function from the old list to the new list, as in the handlers.
- `Reorder` holds the drop handler. It is a method over a fresh array, the copy made by `Array.from`. Two in-place shifting loops do the work of `splice`. A second, corrected version of the handler works on view indices.
- `Csv` holds the rows handed to the CSV export.

Ids are creation timestamps in the app. In the model they are a
parameter of `Add`. Where a property needs the ids to be distinct, that is
stated as `UniqueIds`, either a precondition or a preserved invariant.

Three details of the code are easy to misread, and the model follows the
code on each:

- The checkbox flips every task that carries the id, not a single one. `TaskList.Toggle` and `TaskList.ToggleUnique` show both readings.
- The blank test applies `trim` to the text, but the text is stored as entered.
- Ids are unique only as long as no two adds fall in the same millisecond. Nothing in the code enforces it.

## Model

| member | source | states |
|---|---|---|
| Tasks.Trim | src/App.jsx:43 | `text.trim()` is empty exactly when every character of `text` is JavaScript whitespace or a line terminator |
| Tasks.TrimIsInnerSlice | src/App.jsx:43 | `trim` returns a slice of the text whose first and last characters are not whitespace, and everything it drops on either side is whitespace |
| TaskList.View | src/App.jsx:12-16 | the shown list holds exactly the tasks of the list that the selected filter accepts, and is never longer than the list |
| TaskList.Filter.Accepts | src/App.jsx:12-16 | All accepts every task, Active the tasks not completed, Completed the completed ones |
| TaskList.ViewAllIsWholeList | src/App.jsx:13 | the All filter shows the whole list, unchanged |
| TaskList.ActiveCompletedPartition | src/App.jsx:14-15 | every task is in exactly one of Active and Completed: their multisets add up to the list's and their lengths to its length, and no task is in both |
| TaskList.ActiveCompletedIds | src/App.jsx:14-15 | the ids of the Active and Completed views together are the ids of the All view; with unique ids the two id sets are disjoint |
| Seqs.Keep | src/App.jsx:200 | `Array.prototype.filter`, as used at lines 200, 265 and 290: never longer than its input; what it keeps, how often and in which order is stated by `Seqs.KeepMembers` and `Seqs.KeepInOrder` |
| Seqs.KeepMembers | src/App.jsx:200 | a `filter` keeps an element exactly when it satisfies the predicate, and keeps it as many times as it occurs |
| Seqs.KeepInOrder | src/App.jsx:200 | a `filter` result is the subsequence of the list at strictly increasing indices, and those are exactly the indices of the accepted elements |
| Seqs.KeepIdempotent | src/App.jsx:290 | filtering twice with the same predicate equals filtering once |
| Seqs.KeepIdentityIff | src/App.jsx:265 | a `filter` returns the list unchanged exactly when every element satisfies the predicate |
| TaskList.Add | src/App.jsx:42-52 | blank text leaves the list as it is; otherwise the result is one longer, its tail is the old list and its head is a new not-completed task carrying the given id, text, priority and category, with no date when the date field is empty |
| TaskList.AddKeepsIdsUnique | src/App.jsx:44-52 | adding with an id no task carries keeps the ids unique |
| TaskList.AddAllLength | src/App.jsx:42-52 | after a run of adds the list has grown by the number of adds whose text was not blank |
| TaskList.Toggle | src/App.jsx:237-244 | the list keeps its length and order; every task keeps all its fields but `completed`, which is flipped exactly on the tasks carrying the id |
| TaskList.ToggleTwice | src/App.jsx:237-244 | toggling the same id twice restores the list |
| TaskList.ToggleChangesIffPresent | src/App.jsx:237-244 | a toggle changes the list exactly when some task carries the id |
| TaskList.ToggleUnique | src/App.jsx:237-244 | with unique ids, toggling the id of task `k` flips task `k` only, and the ids stay unique |
| TaskList.Delete | src/App.jsx:265 | the result holds exactly the tasks of the list whose id differs from the deleted one |
| TaskList.DeleteTwice | src/App.jsx:265 | deleting the same id twice equals deleting it once |
| TaskList.DeleteChangesIffPresent | src/App.jsx:265 | a delete changes the list exactly when some task carries the id |
| TaskList.DeleteUnique | src/App.jsx:265 | with unique ids, deleting the id of task `k` removes exactly index `k`, keeps the others in order, and the ids stay unique |
| TaskList.ClearDone | src/App.jsx:290 | the result holds exactly the tasks of the list that are not completed |
| TaskList.ClearDoneIsActiveView | src/App.jsx:290 | "Clear Done" leaves exactly the list the Active filter shows |
| TaskList.ClearDoneTwice | src/App.jsx:290 | a second "Clear Done" changes nothing |
| TaskList.KeepKeepsIdsUnique | src/App.jsx:290 | any `filter` of a list with unique ids has unique ids |
| TaskList.ClearDoneAndViewsKeepIdsUnique | src/App.jsx:290 | "Clear Done" and every filter view keep the ids unique |
| TaskList.BuyMilkScenario | src/App.jsx:42-52 | adding "Buy milk" (High, no date, Errand) to an empty list gives that one task, not completed; toggling it completes it; "Clear Done" then leaves the list empty |
| Reorder.RemoveAt | src/App.jsx:65 | `splice(i, 1)` on an array returns the element at `i`; the first `len - 1` cells become the old contents without index `i`, and the cells beyond are unchanged |
| Reorder.InsertAt | src/App.jsx:66 | `splice(i, 0, x)` on an array makes the first `len + 1` cells the old contents with `x` inserted at index `i`, and the cells beyond are unchanged |
| Seqs.Remove | src/App.jsx:65 | `splice(i, 1)`: one shorter; the elements before `i` stay, those after it move one index down |
| Seqs.Insert | src/App.jsx:66 | `splice(i, 0, x)`: one longer; the elements before `i` stay, `x` is at `i`, those from `i` on move one index up |
| Reorder.DragEnd | src/App.jsx:62-67 | with no destination the list stays as it is; otherwise the result is the list with the task at the source index taken out and put back at the destination index |
| Seqs.Moved | src/App.jsx:65-66 | a move keeps the length and the multiset of the list, and the moved element lands at the destination |
| Reorder.DragEndKeepsTasks | src/App.jsx:64-66 | a drop keeps the length and the tasks of the list, and leaves the other tasks in their relative order; the moved task lands at the destination, and moving it back restores the list |
| Seqs.MovedInverse | src/App.jsx:65-66 | moving an element from `from` to `to` and then back from `to` to `from` restores the list |
| Seqs.MovedNowhere | src/App.jsx:65-66 | a drop onto its own index changes nothing |
| Reorder.DragEndKeepsIdsUnique | src/App.jsx:64-66 | a drop keeps the ids unique |
| Reorder.FilteredDragDiverges | src/App.jsx:200-204 | under the Active filter, with a completed task first, the handler applies view indices 0 and 1 to the full list, and the shown order stays as it was instead of swapping |
| Reorder.DragEndInView | src/App.jsx:62-67 | the corrected drop handler keeps the length and the tasks of the list, moves the dragged task from `source` to `destination` in the shown list, and under the All filter is exactly the handler as written |
| Reorder.MoveAtViewPositions | src/App.jsx:200-204 | moving between the list indices of two shown tasks moves the task between their view positions; under All the view positions are the list indices |
| Seqs.KeepOfMoveAtPositions | src/App.jsx:200-204 | a move between the positions of the `from`-th and `to`-th kept elements moves the kept sequence from `from` to `to` |
| Csv.Rows | src/App.jsx:78-84 | one row per task, in list order; row `k` carries the text, priority, date, category and completed flag of task `k` in the columns Text, Priority, Date, Category and Done |
| Csv.RowsForgetOnlyIds | src/App.jsx:78-84 | two lists export the same rows exactly when they have the same length and agree, task by task, on everything but the id |
| Csv.RowsAfterAdd | src/App.jsx:78-84 | after a successful add, the export gains the new task's row in front of the old rows |
| Csv.RowsAfterToggle | src/App.jsx:78-84 | after a toggle, the export differs only in the Done column of the rows whose task carries the id |

## Left out

- Persistence: the list is read with `JSON.parse` from `localStorage` at start-up and written back after every change (src/App.jsx:21-23, 34-37). That is I/O and is not modelled.
- Ids: `Date.now()` is a clock, so the id is a parameter of `Add`. Its uniqueness is a precondition where a property needs it.
- Speech recognition: the transcript is copied into the text field (src/App.jsx:38-40). That is a browser service and is not modelled.
- Notifications: "Task added" is shown after an add (src/App.jsx:57-59). That is a browser service and is not modelled.
- PDF export (src/App.jsx:70-76): rendering is done by outside libraries and is not modelled.
- CSV writing: `CSVLink` serialises `csvData` to a file. Only the rows are modelled, not the serialisation.
- The rest of the UI is not modelled: the drag mechanics of the drag-and-drop library, the theme and styling, and the form fields that are reset after an add (src/App.jsx:53-56).
- Tasks.Trim: characters are Unicode scalar values, not UTF-16 code units. A string carrying an unpaired surrogate therefore cannot be represented.

## Findings

| source | as written | input that shows it | evidently intended | confidence | as-written member | corrected member |
|---|---|---|---|---|---|---|
| src/App.jsx:62-67 | the drag library reports `index={i}`, the position in the filtered list (src/App.jsx:200-204), and `onDragEnd` uses that index on the full list | filter Active, list [done a, b, c]; drag the first shown task (b) onto the second (c): the full list becomes [b, a, c] and the Active view stays [b, c] | the shown list becomes [c, b]: map both view indices to the list indices of the shown tasks before moving | high; not executed | Reorder.DragEnd, Reorder.FilteredDragDiverges | Reorder.DragEndInView |
