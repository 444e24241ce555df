# mpp-gantt-pro task tree and day grid, in Dafny

This project models the core of mpp-gantt-pro, a Gantt chart editor. The core is the **task tree**, a forest of `Task` records where each may carry an optional `children` array. The project models the operations the editor performs on it:

- **GanttChart component:** the pre-order flattening used to find the chart's date range, the date range itself, the expand/collapse toggle, and the root-level drag reorder.
- **Index page:** replace-by-id, delete-by-id with its subtree, and append of a new task.
- **useTasks hook:**
  - the mapping between table rows and tasks;
  - the build of the forest from the fetched rows;
  - the flattening of a reordered forest back into rows with renumbered positions and parent ids;
  - the order in which the table returns rows (ascending position).
- **Day-grid layout:** the visible pre-order (only expanded nodes open), one grid row and one bar per visible task, and the header's day columns, month groups and total width.

Dates are whole day numbers, with day 0 = 1970-01-01. `differenceInDays` is then a subtraction. The date-fns month functions (`startOfMonth`, `endOfMonth`, `addMonths`, `eachDayOfInterval`) are written out over a proleptic Gregorian calendar in module `Calendar`. The current time, which the source reads from the clock, is a parameter.

Modules, one per source concern:

| module | file | models |
|---|---|---|
| `TaskModel` | task_model.dfy | the `Task` record and the pre-order listing of a forest |
| `Calendar` | calendar.dfy | day numbers, months, and the date-fns helpers used |
| `TaskBar` | task_bar.dfy | `TaskBar.tsx` |
| `GanttGrid` | gantt_grid.dfy | `GanttGrid.tsx` |
| `GanttHeader` | gantt_header.dfy | `GanttHeader.tsx` |
| `GanttChart` | gantt_chart.dfy | `GanttChart.tsx` |
| `TaskEdits` | task_edits.dfy | the tree edits of `pages/Index.tsx` |
| `TaskStore` | task_store.dfy | the build, save and flatten logic of `hooks/useTasks.ts` |
| `TaskFetch` | task_fetch.dfy | the position order of the fetch, and the round trip through it |

A few modelling choices:

- **Loops become methods.** The loops the source writes as loops are methods with invariants, each proved equal to a specification function:
  - `FlattenTasks` and `FlattenVisible` (the `forEach`/`push` flatteners);
  - `BuildTree` (the two passes over the JavaScript `Map`);
  - `RenderMonths` (the `while` loop over months);
  - the render methods around them.
- **Build on values.** The build is modelled on values. The `Map` is its keys in insertion order plus a map from id to the fresh task object. Each `parent.children.push` is an entry in a map from parent id to the list of child ids. The object graph this produces is read back as a tree of values by `ReadList`, which carries the path of ancestors so that a cycle of parent ids is cut rather than unfolded forever.

## Model

| member | source | states |
|---|---|---|
| TaskModel.Ids | src/hooks/useTasks.ts:30 | the id list has one entry per task, the i-th being the i-th task's id |
| TaskModel.PreOrderMembers | src/components/GanttChart/GanttChart.tsx:38-47 | a task is in the full flattening exactly when it is a root or lies below one through children arrays |
| TaskModel.PreOrderLength | src/components/GanttChart/GanttChart.tsx:38-47 | the full flattening has as many entries as the forest has nodes |
| TaskModel.PreOrderAppend | src/components/GanttChart/GanttChart.tsx:40-45 | flattening two root lists one after the other is flattening their concatenation |
| TaskModel.SubtreeFollows | src/components/GanttChart/GanttChart.tsx:41-44 | in the full flattening every node is immediately followed by the whole flattening of its children, whatever its expanded flag |
| TaskModel.RootsInPreOrder | src/components/GanttChart/GanttChart.tsx:40-41 | the roots appear in the full flattening in their original order |
| Calendar.DaysInMonth | src/components/GanttChart/GanttHeader.tsx:15 | a month has 28 to 31 days, and 29 exactly for February of a leap year |
| Calendar.MonthStep | src/components/GanttChart/GanttHeader.tsx:27 | the next month starts right after this month's last day |
| Calendar.MonthOf | src/components/GanttChart/GanttHeader.tsx:14 | every day falls in the month whose first day is at most it and whose successor starts after it |
| Calendar.MonthOfUnique | src/components/GanttChart/GanttHeader.tsx:14 | that month is the only one containing the day |
| Calendar.MonthOfMonotone | src/components/GanttChart/GanttHeader.tsx:14-17 | a later day never falls in an earlier month |
| Calendar.StartOfMonth | src/components/GanttChart/GanttHeader.tsx:14 | `startOfMonth` gives the first day of the day's month, at most the day and less than a month before it |
| Calendar.EndOfMonth | src/components/GanttChart/GanttHeader.tsx:15 | `endOfMonth` gives the last day of the day's month, at least the day and less than a month after it |
| Calendar.AddMonth | src/components/GanttChart/GanttHeader.tsx:27 | `addMonths(d, 1)` lands in the month after the month of `d` |
| Calendar.AddMonthToFirstDay | src/components/GanttChart/GanttHeader.tsx:27 | from a month's first day `addMonths` lands on the next month's first day |
| Calendar.EachDay | src/components/GanttChart/GanttHeader.tsx:10 | `eachDayOfInterval` lists `end - start + 1` days, the i-th being `start + i` |
| TaskBar.BarOf | src/components/GanttChart/TaskBar.tsx:13-60 | the left offset is `(start - chartStart) * dayWidth` and the width `(end - start + 1) * dayWidth`, so the right edge is `(end - chartStart + 1) * dayWidth`; the bar is a section exactly when the task has a non-empty children array; the height is 10 for a section and 28 otherwise; the fill is present exactly when progress > 0 and then equals progress; the title shows exactly when not a section; the hover percentage shows exactly when the title and a fill show |
| TaskBar.BarOnGrid | src/components/GanttChart/TaskBar.tsx:13-17 | a task starting on or after the chart start has `left >= 0`; one ending by the chart end has its right edge within the grid width; a task with start <= end is at least one day wide |
| GanttGrid.VisibleAppend | src/components/GanttChart/GanttGrid.tsx:24-33 | the visible listing of two root lists one after the other is their visible listings joined |
| GanttGrid.FlattenVisible | src/components/GanttChart/GanttGrid.tsx:24-33 | the push loop produces the visible pre-order: each task, then the listing of its children only when it has a children array and its flag is set |
| GanttGrid.VisibleIsSubsequence | src/components/GanttChart/GanttGrid.tsx:24-33 | the visible listing is a subsequence of the full flattening |
| GanttGrid.VisibleCount | src/components/GanttChart/GanttGrid.tsx:24-35 | the visible listing has at most as many rows as the forest has nodes |
| GanttGrid.ExpandedShowsAll | src/components/GanttChart/GanttGrid.tsx:28-30 | when every node with a children array is expanded, the visible listing is the full flattening |
| GanttGrid.RootsVisible | src/components/GanttChart/GanttGrid.tsx:26-27 | every root is listed, in its original order |
| GanttGrid.ShownFollows | src/components/GanttChart/GanttGrid.tsx:27-30 | every visible node is immediately followed by the visible listing of what it opens |
| GanttGrid.VisibleMembers | src/components/GanttChart/GanttGrid.tsx:24-33 | only nodes of the forest are listed |
| GanttGrid.CollapsedHidesSubtree | src/components/GanttChart/GanttGrid.tsx:28 | with unique ids, no node below a collapsed node (flag false or undefined), or below one without a children array, is listed |
| GanttGrid.SubtreeInside | src/components/GanttChart/GanttGrid.tsx:24-33 | a node below a node of the forest is itself a node of the forest |
| GanttGrid.GridRows | src/components/GanttChart/GanttGrid.tsx:52-66 | one row per listed task; row i has the task's id as key, the row height, and the bar of that task |
| GanttGrid.RenderGrid | src/components/GanttChart/GanttGrid.tsx:22-66 | `end - start + 1` day columns; the rows are the grid rows of the visible listing, and there are at most as many as nodes |
| GanttHeader.MonthHeaders | src/components/GanttChart/GanttHeader.tsx:13-28 | one month entry per month from the month of the start date to the month of the end date |
| GanttHeader.RenderMonths | src/components/GanttChart/GanttHeader.tsx:13-28 | the `while` loop from `startOfMonth(start)` to `endOfMonth(end)` terminates and yields exactly those month entries: each month's first day, and the days of that month inside the view times the day width |
| GanttHeader.MonthEntry | src/components/GanttChart/GanttHeader.tsx:18-25 | one turn of the loop clips the month to the view and yields that month's entry: its first day, and its days in view times the day width |
| GanttHeader.MonthInView | src/components/GanttChart/GanttHeader.tsx:18-20 | for every month the loop visits, the clipped interval `[max(monthStart, start), min(monthEnd, end)]` is non-empty, and `addMonths` moves to the next month's first day |
| GanttHeader.DaysInViewBounds | src/components/GanttChart/GanttHeader.tsx:18-20 | `daysInView` is between 1 and the month's length, and the full month's length for every month strictly between the first and the last |
| GanttHeader.HeaderDates | src/components/GanttChart/GanttHeader.tsx:14-27 | the first entry is the start date's month, the last is the end date's month, and each entry is one `addMonths` after the previous |
| GanttHeader.PrefixWidth | src/components/GanttChart/GanttHeader.tsx:18-25 | the widths of the month entries up to month m sum to the width of the days from the start date to the end of month m (or to the end date) |
| GanttHeader.WidthStep | src/components/GanttChart/GanttHeader.tsx:18-20 | adding the next month's clipped days to the days so far gives the days up to that month's end |
| GanttHeader.HeadersSpanDays | src/components/GanttChart/GanttHeader.tsx:12-30 | the month widths sum to the number of day columns times the day width: the clipped months cover the days exactly once |
| GanttHeader.RenderHeader | src/components/GanttChart/GanttHeader.tsx:10-30 | the day columns are `eachDayOfInterval(start, end)`, the months are the month entries, and `totalWidth` equals both the sum of the month widths and `(end - start + 1) * dayWidth` |
| GanttChart.FlattenTasks | src/components/GanttChart/GanttChart.tsx:38-47 | the push loop yields the full pre-order flattening, every node whatever its flag |
| GanttChart.AllDates | src/components/GanttChart/GanttChart.tsx:58 | two dates per task |
| GanttChart.AllDatesMembers | src/components/GanttChart/GanttChart.tsx:58 | a date is listed exactly when it is some task's start or end date |
| GanttChart.MinOf | src/components/GanttChart/GanttChart.tsx:59 | `Math.min` of a non-empty list is an element at most every element |
| GanttChart.MaxOf | src/components/GanttChart/GanttChart.tsx:60 | `Math.max` of a non-empty list is an element at least every element |
| GanttChart.DateRangeOf | src/components/GanttChart/GanttChart.tsx:49-62 | start <= end; for an empty tree, the first and last day of the month of "now"; otherwise every node's dates lie in the range, and both ends are some node's start or end date (the minimum and the maximum) |
| GanttChart.BarsInsideChart | src/components/GanttChart/GanttChart.tsx:173-204 | with the computed range, every bar of the grid starts at or after 0 and ends within the header's total width |
| GanttChart.CalculateDateRange | src/components/GanttChart/GanttChart.tsx:37-63 | the method computes the date range above |
| GanttChart.ChartDateRange | src/components/GanttChart/GanttChart.tsx:65-67 | when both dates are given they are used unchanged; otherwise the range is computed from the tree |
| GanttChart.ToggleInTasks | src/components/GanttChart/GanttChart.tsx:118-128 | the root list keeps its length |
| GanttChart.ToggleKeepsShape | src/components/GanttChart/GanttChart.tsx:118-128 | every children array keeps its presence, length and order of ids |
| GanttChart.ToggleFlipsOnlyTarget | src/components/GanttChart/GanttChart.tsx:120-126 | with unique ids, node by node in pre-order: the node with the id has its flag negated (undefined becomes true) and nothing else changed; every other node keeps every field except its children array |
| GanttChart.ToggleAbsent | src/components/GanttChart/GanttChart.tsx:118-128 | toggling an id absent from the tree returns the same tree |
| GanttChart.ToggleTwice | src/components/GanttChart/GanttChart.tsx:118-128 | toggling the same id twice restores the tree when every node with that id has a defined flag |
| GanttChart.ToggleTwiceUndefined | src/components/GanttChart/GanttChart.tsx:121 | an undefined flag toggled twice ends as false, not undefined |
| GanttChart.FindIndex | src/components/GanttChart/GanttChart.tsx:145-146 | `findIndex` by id over the roots: -1 exactly when no root has the id, otherwise the first root with it |
| GanttChart.ArrayMove | src/components/GanttChart/GanttChart.tsx:149 | remove-then-insert keeps the length and puts the moved element at the target index |
| GanttChart.ArrayMovePermutes | src/components/GanttChart/GanttChart.tsx:149 | the result is a permutation of the input |
| GanttChart.ArrayMoveShifts | src/components/GanttChart/GanttChart.tsx:149 | elements outside the moved span keep their index; those inside shift by one toward the source index |
| GanttChart.ArrayMoveInverse | src/components/GanttChart/GanttChart.tsx:149 | moving back from the target to the source index restores the list |
| GanttChart.ArrayMoveExample | src/components/GanttChart/GanttChart.tsx:149 | moving the first of [A,B,C,D] onto the third gives [B,C,A,D] |
| GanttChart.HandleDragEnd | src/components/GanttChart/GanttChart.tsx:140-152 | a reorder happens exactly when there is a drop target, it differs from the dragged id, and both ids are root ids |
| GanttChart.DragEndMoves | src/components/GanttChart/GanttChart.tsx:145-150 | when it happens, the new root list is a same-length permutation with the dragged task at the target's old index and the roots outside the span unmoved |
| TaskEdits.UpdateTaskInTree | src/pages/Index.tsx:131-141 | the root list keeps its length and its ids, in order |
| TaskEdits.UpdateAbsent | src/pages/Index.tsx:131-141 | an update whose id is absent returns the same tree |
| TaskEdits.UpdateIdempotent | src/pages/Index.tsx:131-141 | updating twice with the same task equals updating once |
| TaskEdits.UpdateReplacesSegment | src/pages/Index.tsx:133-137 | with unique ids, in the pre-order listing of entries (each node's own fields together with its children's ids in order, which fixes the nesting) the matched node's whole subtree is replaced by the edited task's subtree, including its children field, and every other entry, child ids included, is unchanged and in place |
| TaskEdits.DeleteTaskFromTree | src/pages/Index.tsx:148-157 | the root list never grows |
| TaskEdits.DeleteRootIds | src/pages/Index.tsx:149-150 | the root ids are the old root ids with the deleted id filtered out, in order |
| TaskEdits.DeleteRemovesId | src/pages/Index.tsx:149-150 | no node with the deleted id remains anywhere |
| TaskEdits.DeleteAbsent | src/pages/Index.tsx:148-157 | deleting an absent id returns the same tree |
| TaskEdits.DeleteIdempotent | src/pages/Index.tsx:148-157 | deleting twice equals deleting once |
| TaskEdits.DeleteCutsSegment | src/pages/Index.tsx:148-157 | with unique ids, in the pre-order listing of entries (each node's own fields together with its children's ids in order, which fixes the nesting) the deleted node's whole subtree is cut out, and every other entry is kept in its relative order with unchanged fields and with the deleted id filtered out of its child ids |
| TaskEdits.DeleteAppend | src/pages/Index.tsx:149-156 | deleting from two root lists one after the other is deleting from each |
| TaskEdits.NatToString | src/pages/Index.tsx:165 | a number prints as decimal digits without a leading zero, one digit exactly when it is below 10, and the digits spell the number back (`DecimalValue`) |
| TaskEdits.NatToStringInjective | src/pages/Index.tsx:165 | two clock readings that print the same id are equal |
| TaskEdits.HandleAddTask | src/pages/Index.tsx:163-173 | one new root is appended after the unchanged old roots, with id `"new-"` followed by the time, progress 0, no dependencies, start today, end 7 days later, no parent and no children; the node count grows by one |
| TaskEdits.AddThenDelete | src/pages/Index.tsx:148-173 | deleting the task just added restores the tree when its id was fresh |
| TaskStore.NonEmpty | src/hooks/useTasks.ts:37 | `x \|\| undefined` makes a null or empty parent id absent and keeps any other |
| TaskStore.ToTask | src/hooks/useTasks.ts:29-42 | the built task has the row's id, an empty children array, the dependencies or `[]`, and a parent id exactly when the row's is non-empty |
| TaskStore.SaveRow | src/hooks/useTasks.ts:75-87 | the saved row has the task's id and the user's id, a null parent exactly when the task's is absent or empty, and expanded true unless the flag is false |
| TaskStore.SaveThenLoad | src/hooks/useTasks.ts:29-42 | loading a saved task gives the task back, except an empty children array, the owner set, the flag defaulted to true and an empty parent id dropped |
| TaskStore.LoadThenSave | src/hooks/useTasks.ts:75-87 | saving a loaded row gives the row back, except dependencies defaulted to `[]`, an empty parent id nulled and the flag defaulted to true |
| TaskStore.RowIds | src/hooks/useTasks.ts:30 | one id per row, in row order |
| TaskStore.MapDomain | src/hooks/useTasks.ts:43 | the map's keys in insertion order, its domain and the row ids hold the same ids |
| TaskStore.MapNodesLoaded | src/hooks/useTasks.ts:43 | every entry of the map is a loaded task stored under its own id |
| TaskStore.ChildIdsMembers | src/hooks/useTasks.ts:47-52 | a key is pushed under a parent exactly when its task's parent id is non-empty and names that parent |
| TaskStore.RootIdsMembers | src/hooks/useTasks.ts:53-55 | a key becomes a root exactly when its task has no non-empty parent id |
| TaskStore.ChildMap | src/hooks/useTasks.ts:46-56 | the children pushed form a graph over the map's entries |
| TaskStore.ReadNode | src/hooks/useTasks.ts:46-52 | a node read back is the map's task for its key, with a children array |
| TaskStore.BuildTree | src/hooks/useTasks.ts:25-56 | the two loops over the rows and the map build exactly the specified forest |
| TaskStore.IndexRows | src/hooks/useTasks.ts:28-44 | the first pass leaves one task per row id, the last row with that id winning, in first-insertion order, each with an empty children array |
| TaskStore.LinkNodes | src/hooks/useTasks.ts:46-56 | the second pass pushes each task onto its parent's children or the root list, in map order, exactly as the child map and root list specify |
| TaskStore.BuildShape | src/hooks/useTasks.ts:25-56 | the roots are the root keys in insertion order; every node of the result is the map's task for its id, with the keys pushed under it as its children ids and a parent that exists |
| TaskStore.MapNodesLastWins | src/hooks/useTasks.ts:43 | when ids repeat, the last row with an id wins the map entry |
| TaskStore.MapKeysOfDistinct | src/hooks/useTasks.ts:43 | with distinct row ids, the keys are the row ids in row order |
| TaskStore.FiltersOfRows | src/hooks/useTasks.ts:46-56 | the root filter and the child filter over the keys equal the filters over the rows themselves |
| TaskStore.BuildRoots | src/hooks/useTasks.ts:53-55 | with distinct ids, the roots are the rows without a non-empty parent id, in input order |
| TaskStore.BuildNodes | src/hooks/useTasks.ts:46-52 | with distinct ids, every built node comes from a row and its children are the rows naming it as parent, in input order |
| TaskStore.OrphanDropped | src/hooks/useTasks.ts:47-52 | a row whose parent id names no fetched row is nowhere in the built forest |
| TaskStore.OrderRow | src/hooks/useTasks.ts:141-153 | the row written for the index-th sibling under a parent is the row saving the task with that parent id and that position would write |
| TaskStore.SaveAll | src/hooks/useTasks.ts:75-87 | one saved row per task, in order |
| TaskStore.FlattenRowsNodes | src/hooks/useTasks.ts:139-158 | one row per node of the forest, in pre-order, each with that node's id, the user's id and a defined expanded flag |
| TaskStore.FlattenIsSaveAll | src/hooks/useTasks.ts:139-158 | the flattened rows are, in pre-order, the saved rows of the reloaded forest: one per node, with positions 0..n-1 among siblings and the enclosing node's id as parent |
| TaskStore.ReloadedIds | src/hooks/useTasks.ts:139-158 | flattening keeps every node's id, in pre-order |
| TaskStore.ReloadedStored | src/hooks/useTasks.ts:149-151 | every reloaded node belongs to the user, has a defined flag, a normal parent id and a children array |
| TaskStore.ReloadedLinked | src/hooks/useTasks.ts:149-155 | with non-empty ids, every reloaded node names its enclosing node, or no parent at root level |
| TaskStore.FilterRoots | src/hooks/useTasks.ts:53-55 | in a linked forest the nodes naming no parent are exactly the roots, in order |
| TaskStore.FilterChildren | src/hooks/useTasks.ts:47-52 | in a linked forest with unique ids the nodes naming a node as parent are exactly its children, in order |
| TaskStore.ReadBack | src/hooks/useTasks.ts:46-56 | a forest whose nodes are all recorded in the map and the child lists is read back as itself |
| TaskStore.ReorderThenFetch | src/hooks/useTasks.ts:139-158 | with unique non-empty ids, building from the flattened rows in the order written gives the reloaded forest: same ids, nesting and sibling order |
| TaskStore.SavedNodes | src/hooks/useTasks.ts:75-87 | saving a stored listing with distinct ids and loading it gives back each node without its children |
| TaskStore.ReloadedIdempotent | src/hooks/useTasks.ts:139-158 | reloading a reloaded forest changes nothing |
| TaskStore.ReorderIsStable | src/hooks/useTasks.ts:139-158 | flattening the forest built from flattened rows writes the same rows again |
| TaskFetch.SortedEqual | src/hooks/useTasks.ts:20 | two position orders of the same rows coincide when one has strictly increasing positions |
| TaskFetch.ChildRowsAreSiblings | src/hooks/useTasks.ts:47-52 | the rows pushed under a parent are that parent's sibling group, in fetch order |
| TaskFetch.RootRowsAreSiblings | src/hooks/useTasks.ts:53-55 | the root rows are the sibling group of no parent, in fetch order |
| TaskFetch.SiblingsCount | src/hooks/useTasks.ts:46-56 | a sibling group holds every row with that parent as often as the rows do, and nothing else |
| TaskFetch.SiblingsByPosition | src/hooks/useTasks.ts:16-20 | rows fetched by ascending position give every sibling group in ascending position |
| TaskFetch.FetchedSiblings | src/hooks/useTasks.ts:16-20 | a fetch of rows whose sibling group has strictly increasing positions returns that group in its stored order |
| TaskFetch.PermutedDistinct | src/hooks/useTasks.ts:16-20 | a fetch of rows with distinct ids has distinct ids |
| TaskFetch.PermutedNodes | src/hooks/useTasks.ts:43 | with distinct ids, the map built from a fetch equals the map built from the stored rows |
| TaskFetch.ReloadedNumbered | src/hooks/useTasks.ts:150 | the reloaded roots are numbered from the start index, and every children array from 0 |
| TaskFetch.SavedIncreasing | src/hooks/useTasks.ts:150 | rows saved from numbered tasks have strictly increasing positions |
| TaskFetch.SiblingsOfSaved | src/hooks/useTasks.ts:149 | the sibling group of the saved rows is the saved rows of the tasks naming that parent |
| TaskFetch.FetchThenBuild | src/hooks/useTasks.ts:16-20 | with unique non-empty ids, any fetch of the flattened rows sorted by position, whatever order the table returns them in, builds the reloaded forest: same ids, nesting and sibling order |
| TaskFetch.SameBuild | src/hooks/useTasks.ts:16-20 | when every sibling group of the stored rows has strictly increasing positions, any fetch of them builds what the rows in stored order build |
| TaskFetch.SavedRootsIncreasing | src/hooks/useTasks.ts:149-150 | the root rows written for a reordered forest have strictly increasing positions |
| TaskFetch.SavedKidsIncreasing | src/hooks/useTasks.ts:149-155 | the rows written under any node have strictly increasing positions |
| TaskFetch.FetchedRoots | src/hooks/useTasks.ts:53-55 | such a fetch keeps the root list |
| TaskFetch.FetchedChildren | src/hooks/useTasks.ts:47-52 | such a fetch keeps every child list |

## Left out

- Table access is not modelled: authentication, select, upsert, delete and the change subscription (`useTasks.ts:13-22, 89-95, 112-119, 162-168, 178-200`). The rows fetched or written are parameters and results. Toasts, the loading flag and the `await` ordering are left out too.
- The database sort is modelled by `TaskFetch.FetchedFrom`: the same rows, ordered by ascending position with null positions last. Rows with equal positions may come back in any order.
- Dates are day numbers. Time of day, time zones, `new Date` parsing and `toISOString` formatting are left out. The month label format and the day label are left out too.
- `TaskEdits.HandleAddTask`: the clock is a parameter; the id is `"new-"` followed by its decimal digits (`NatToString`). Two clicks in the same millisecond give the same id, and whether an id is fresh is a premise of `AddThenDelete`, not something the model can promise.
- Scroll synchronisation, dnd-kit sensors and sortable contexts, styling and the other components (dialogs, task list, toolbar, login) are not part of this model.
- Rows whose parent id names no fetched row are dropped, as `useTasks.ts:47-52` does, not promoted to roots.
- Drag reorder is root-level only: `findIndex` searches only the root list. Nested reorder is not in the source.
- `TaskStore.BuildTree`: JavaScript object aliasing is not modelled. A child pushed into its parent's array is the same object as the map entry. The model reads the map and child lists back as a value tree, and cuts any cycle of parent ids at the first repeated ancestor.
- `Calendar.EachDay`, `GanttHeader.MonthHeaders`, `GanttHeader.RenderMonths`, `GanttHeader.RenderHeader` and `GanttGrid.RenderGrid` require start <= end. The chart always supplies a range with start <= end (`GanttChart.DateRangeOf`), so an inverted interval is never passed to them; what `eachDayOfInterval` does with one is not modelled.
- `TaskStore.SaveRow` does not model upserting a task whose fields are undefined. Every field of the modelled task has a value.
- `TaskFetch.FetchThenBuild` and `TaskStore.ReorderThenFetch` require unique, non-empty ids. With repeated ids the map keeps only the last row. An empty id is read as no parent.
