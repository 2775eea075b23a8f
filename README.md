# react-table-dnd-tree in Dafny

This project models the logic behind drag-to-re-parent in the org chart of
`react-table-dnd-tree`.

- `buildEmployeeTree` turns a flat list of employees with `managerId` parent
  pointers into a forest. It is modelled as the imperative two-pass method of the
  source and proved against filter-style reference functions.
- `getDragDepth` and `getProjection` compute a candidate depth, a depth range and a
  parent for the dragged row. They work from the flattened rows, the row under the
  pointer and the horizontal offset. They are modelled as functions, with
  `arrayMove` written out as "remove at `from`, insert at `to`".
- The drag session of `SortableEmployeeTree` is a class. Its fields are the
  employee list and the state `activeId`, `overId` and `offsetLeft`. It has one
  method per handler: start, move, over, end, cancel, reset and remove.

Modules:

- `Types`: records and optional values.
- `Sequences`: `findIndex`, `splice` and unique ids on sequences.
- `EmployeeTree`: the tree builder.
- `DragProjection`: the drag depth and the projection.
- `FlattenedRows`: the shape of pre-order rows, plus what the projection does on
  such rows.
- `SortableTree`: the component's state and handlers.
- `Roster`: the sample roster of `src/App.tsx` and concrete drags on it.

The `maxDepth` expression on line 47 of `utilities.ts` is modelled literally, as
`previous.depth`, or 0 when there is no previous row. The handlers use this literal
projection. The version with the evidently intended `previous.depth + 1` is a
separate function, `GetProjectionIntended`. Its properties are proved beside the
literal one; see "## Findings".

The clamp of lines 49-55 of `utilities.ts`:

- Lines 51-55 test `projectedDepth >= maxDepth` before `projectedDepth < minDepth`.
  The depth lies in `[minDepth, maxDepth]` only while that range has not crossed
  (`ProjectionBounds`).
- Once the bounds cross, a candidate at or above `maxDepth` gives `maxDepth`
  (`DragFrontendOverCto`). A candidate below both bounds gives `minDepth`, which lies
  above `maxDepth` (`DragFrontendFarLeftOverCto`).
- With the intended bound, the range never crosses on pre-order rows when the dragged
  row shows no children, so the depth always lies in it (`IntendedDepthWithinRange`).

## Model

`Previous`, `Next`, `MaxDepthAsWritten`, `MaxDepthIntended` and `MinDepth` in
`DragProjection` are the literal definitions of lines 43, 44, 47 and 48 of
`utilities.ts`. `EmployeeTree.IsRoot` is line 18 and
`SortableTree.SortableEmployeeTree.Dragging` is line 101 of `SortableEmployeeTree.tsx`.
What they mean is stated by the rows of `ScratchNeighbours`, `ProjectionBounds`,
`IntendedProjectionBounds`, `RootIdsMembers`, `SubordinateIdsMembers` and `Projected`.

| member | source | states |
|---|---|---|
| Sequences.FindIndex | src/components/Tree/utilities.ts:39-40 | `findIndex`: -1 exactly when the id is absent; otherwise an index holding the id with no earlier one |
| Sequences.FindIndexUnique | src/components/Tree/utilities.ts:39-40 | with unique ids, `findIndex` returns the only index that holds the id |
| Sequences.RemoveAt | src/components/Tree/SortableEmployeeTree.tsx:244-246 | `splice(i, 1)` on a copy: one element shorter, the elements before `i` kept, the ones after shifted down by one, the same multiset less `s[i]` |
| EmployeeTree.Reduced | src/components/Tree/utilities.ts:7-13 | the reduce's map has exactly the ids of the list as keys, and each key maps to an employee with that id |
| EmployeeTree.ReducedUnique | src/components/Tree/utilities.ts:7-13 | with unique ids, every node carries its own employee with every field unchanged |
| EmployeeTree.IndexEmployees | src/components/Tree/utilities.ts:7-13 | the reduce loop builds one node with no subordinates per known id, holding the last employee with that id |
| EmployeeTree.BuildEmployeeTree | src/components/Tree/utilities.ts:6-26 | the two-pass method gives each known id its employee and the subordinate list `SubordinateIds`, and gives the top-level list `RootIds` |
| EmployeeTree.RootIdsMembers | src/components/Tree/utilities.ts:17-19 | an id is top-level iff some entry with it has a falsy `managerId` or one naming no known id (both directions) |
| EmployeeTree.SubordinateIdsMembers | src/components/Tree/utilities.ts:20-21 | an id is in `m`'s subordinate list iff some non-root entry with it has `managerId == m` (both directions) |
| EmployeeTree.SingleRoot | src/components/Tree/utilities.ts:17-19 | when only the first entry is a root, the top-level list is that entry alone |
| EmployeeTree.EveryEmployeePlacedOnce | src/components/Tree/utilities.ts:17-23 | the top-level list and all the subordinate lists of the distinct known ids hold as many entries as the input |
| EmployeeTree.BuiltTreePlacesEveryEmployeeOnce | src/components/Tree/utilities.ts:7-23 | with unique ids, the number of roots plus the total length of all subordinate lists equals the number of employees |
| EmployeeTree.ManagerCycleIsUnreachable | src/components/Tree/utilities.ts:17-22 | the members of a set of ids closed under `managerId` (a manager cycle of any length) are never top-level and are placed only under members of the set, so the forest cannot reach them |
| EmployeeTree.SelfManagedIsUnreachable | src/components/Tree/utilities.ts:17-22 | an employee that manages itself is never top-level and sits only in its own subordinate list, so it is unreachable from the forest |
| DragProjection.DragDepth | src/components/Tree/utilities.ts:28-30 | `Math.round(offset / width)`: the result is within half an indent of the offset, and halves round up |
| DragProjection.DragDepthUnique | src/components/Tree/utilities.ts:28-30 | the rounding bounds determine the drag depth: every integer within them equals `DragDepth` |
| DragProjection.ArrayMove | src/components/Tree/utilities.ts:42 | `arrayMove`: same length, the moved row at `to`, every other row in its original relative order, a permutation |
| DragProjection.ArrayMoveUndo | src/components/Tree/utilities.ts:42 | moving the row back from `to` to `from` gives back the original rows |
| DragProjection.ArrayMoveInPlace | src/components/Tree/utilities.ts:42 | a move onto the row's own index changes nothing |
| DragProjection.ScratchNeighbours | src/components/Tree/utilities.ts:42-44 | in the scratch rows the active row sits at the over index; the previous and next rows are named in terms of the original rows |
| DragProjection.NeighbourDepths | src/components/Tree/utilities.ts:43-48 | on rows with non-negative depths, neither bound is negative |
| DragProjection.ScratchKeepsParents | src/components/Tree/utilities.ts:42 | the scratch rows hold the original rows, so a parent that no row names is named by no scratch row |
| DragProjection.Scratch | src/components/Tree/utilities.ts:42 | the scratch rows have the original length, hold the active row at the over index, and are a permutation of the rows |
| DragProjection.ProjectedDepth | src/components/Tree/utilities.ts:45-46 | the candidate depth differs from the active row's depth by the offset rounded to whole indents: within half an indent, halves going up |
| DragProjection.Clamp | src/components/Tree/utilities.ts:49-55 | the depth is the candidate or one of the bounds; it lies in a well-ordered range; it is `maxDepth` whenever the candidate reaches it, `minDepth` when the candidate is below both bounds, and the candidate itself when it lies in `[minDepth, maxDepth)`; with crossed bounds it is one of them; it is non-negative when both bounds are |
| DragProjection.LastWithDepth | src/components/Tree/utilities.ts:72-75 | the backward scan finds the last earlier row of the depth, with none after it; when it finds none, no earlier row has that depth |
| DragProjection.ProjectWith | src/components/Tree/utilities.ts:47-57 | the result carries the given upper bound, the next row's depth as lower bound and the clamped depth, and has no parent at depth 0 |
| DragProjection.GetProjection | src/components/Tree/utilities.ts:32-79 | `getProjection` as written: its depth is non-negative, and a depth of 0 has no parent |
| DragProjection.ProjectionSteps | src/components/Tree/utilities.ts:39-57 | the literal and the intended projections differ only in the upper bound applied to the scratch rows |
| DragProjection.ProjectionBounds | src/components/Tree/utilities.ts:43-55 | `maxDepth` is the previous row's depth or 0; `minDepth` is the next row's depth or 0; the depth is the candidate or a bound, and lies in the range when it has not crossed |
| DragProjection.ParentId | src/components/Tree/utilities.ts:59-78 | no parent at depth 0 or at the first position; the previous row when the depth goes deeper than it; any parent found is the id or the parent of a row before the drop position |
| DragProjection.ParentIdRule | src/components/Tree/utilities.ts:59-78 | the parent rule case by case: null at depth 0 or with no previous row; the previous row's parent at equal depth; the previous row when deeper; otherwise the parent of the nearest earlier row of that depth, or null when there is none |
| DragProjection.ProjectionParentRule | src/components/Tree/utilities.ts:57 | the returned parent is that rule applied to the scratch rows at the over index with the clamped depth |
| DragProjection.ProjectionNeverSelfParent | src/components/Tree/utilities.ts:59-78 | while no row names the active row as parent (its subtree is collapsed), the projected parent is never the active row itself |
| DragProjection.GetProjectionIntended | src/components/Tree/utilities.ts:47 | the projection with the intended upper bound: its depth is non-negative, with no parent at depth 0 |
| DragProjection.IntendedProjectionBounds | src/components/Tree/utilities.ts:47-55 | the same range facts with `maxDepth` one level below the previous row |
| FlattenedRows.LastWithDepthIs | src/components/Tree/utilities.ts:72-75 | the scan returns exactly the last index before `i` that has the depth |
| FlattenedRows.ScanFindsSibling | src/components/Tree/utilities.ts:72-77 | on pre-order rows, scanning back from below a deeper row finds a row with the same parent |
| FlattenedRows.SameDepthParent | src/components/Tree/utilities.ts:64-66 | a row at its predecessor's depth gets its predecessor's parent |
| FlattenedRows.DeeperParent | src/components/Tree/utilities.ts:68-70 | a row one level below its predecessor gets the predecessor as parent |
| FlattenedRows.ParentIdInPlace | src/components/Tree/utilities.ts:59-78 | on pre-order rows, the parent rule at a row's own position and depth gives back the row's own parent |
| FlattenedRows.IntendedOverItselfKeepsRow | src/components/Tree/utilities.ts:47 | with the intended bound, the projection of a collapsed row dragged over itself with no offset keeps its depth and its parent |
| FlattenedRows.IntendedRangeNotCrossed | src/components/Tree/utilities.ts:47-48 | with the intended bound, the range (`minDepth` at most `maxDepth`, both in original-row terms) never crosses on rows with non-negative depths that start at depth 0 and rise by at most one per row, when the dragged row is not followed by a deeper one |
| FlattenedRows.IntendedDepthWithinRange | src/components/Tree/utilities.ts:47-55 | with the intended bound, when the dragged row shows no children, every projected depth on pre-order rows lies in `[minDepth, maxDepth]` |
| FlattenedRows.MaxDepthAsWrittenLiftsRowOverItself | src/components/Tree/utilities.ts:47 | as written, the projection while child row 2 is over itself with no offset is depth 0 with no parent; the intended version shows depth 1 under row 1. Such a drop commits nothing (line 205); for a drop that commits the wrong depth see `Roster.DragFrontendOverCto` and `Roster.RosterDropOverCto` |
| SortableTree.Commit | src/components/Tree/SortableEmployeeTree.tsx:207-218 | the drop write: same length; only `managerId` may change; it changes only at the first index holding the active id; with no such index the list is unchanged |
| SortableTree.CommitChangesOnlyActive | src/components/Tree/SortableEmployeeTree.tsx:209-218 | with unique ids, exactly the entry carrying the active id gets the new manager |
| SortableTree.CommitCurrentManager | src/components/Tree/SortableEmployeeTree.tsx:215-218 | writing an entry's current manager back gives the same list |
| SortableTree.DropResult | src/components/Tree/SortableEmployeeTree.tsx:205-220 | a drop keeps the length and every field but `managerId`; without a projection, without `over` or on the dragged row itself it changes nothing; otherwise the first entry with the active id gets the projected parent as `managerId` and every other `managerId` is kept |
| SortableTree.Drop | src/components/Tree/SortableEmployeeTree.tsx:205-221 | the copy-and-assign of `handleDragEnd` computes `DropResult` |
| SortableTree.RemoveFirst | src/components/Tree/SortableEmployeeTree.tsx:237-249 | a missing id leaves the list unchanged; otherwise the first matching entry is removed: one element shorter, order kept, the same multiset less that entry |
| SortableTree.RemovalOrphansBecomeRoots | src/components/Tree/SortableEmployeeTree.tsx:236-249 | with unique ids, after removing an employee its direct subordinates are top-level when the tree is rebuilt |
| SortableTree.SortableEmployeeTree.constructor | src/components/Tree/SortableEmployeeTree.tsx:73-76 | the initial state: the given employees, no active or over id, offset 0 |
| SortableTree.SortableEmployeeTree.Projected | src/components/Tree/SortableEmployeeTree.tsx:100-109 | a projection exists exactly while both ids are set and truthy |
| SortableTree.SortableEmployeeTree.Start | src/components/Tree/SortableEmployeeTree.tsx:186-192 | both ids become the dragged id, so for a non-empty id a projection exists at once; nothing else changes |
| SortableTree.SortableEmployeeTree.Move | src/components/Tree/SortableEmployeeTree.tsx:194-196 | only the offset changes |
| SortableTree.SortableEmployeeTree.Over | src/components/Tree/SortableEmployeeTree.tsx:198-200 | only the over id changes, possibly to null |
| SortableTree.SortableEmployeeTree.Reset | src/components/Tree/SortableEmployeeTree.tsx:228-234 | the ids are cleared, the offset is 0 and the list is kept |
| SortableTree.SortableEmployeeTree.End | src/components/Tree/SortableEmployeeTree.tsx:202-222 | the drag state is reset, and the list becomes the drop result of the projection held before the reset |
| SortableTree.SortableEmployeeTree.Cancel | src/components/Tree/SortableEmployeeTree.tsx:224-226 | the drag state is reset and the list is untouched |
| SortableTree.SortableEmployeeTree.Remove | src/components/Tree/SortableEmployeeTree.tsx:236-250 | the list becomes `RemoveFirst` of the old list; the drag state is kept |
| SortableTree.DropOnStartRow | src/components/Tree/SortableEmployeeTree.tsx:205 | a gesture that starts, moves by any offset and drops on its own row leaves the list unchanged and the state reset |
| Roster.RosterRowsAreTreeRows | src/App.tsx:6-70 | the fully expanded rows of the sample roster are pre-order rows |
| Roster.RosterTopLevel | src/App.tsx:6-70 | in the sample roster the CEO is the only top-level employee |
| Roster.RosterDragDepths | src/components/Tree/utilities.ts:28-30 | half an indent rounds up to 1; minus one indent is -1; minus half an indent rounds up to 0 |
| Roster.DragFrontendOverBackend | src/components/Tree/utilities.ts:39-77 | dragging 8 over 9 with no offset gives depth 3 under 5 |
| Roster.DragFrontendOverCto | src/components/Tree/utilities.ts:39-77 | dragging 8 over 2 one indent left gives depth 0 with no parent as written (range 1 to 0), and depth 1 under 1 with the intended bound |
| Roster.DragFrontendFarLeftOverCto | src/components/Tree/utilities.ts:39-77 | dragging 8 over 2 four indents left gives depth 1 under 1 as written (candidate -1 below both crossed bounds), deeper than the drag one indent left; the intended bound gives depth 1 under 1 for both |
| Roster.RosterCommits | src/components/Tree/SortableEmployeeTree.tsx:207-220 | committing 8 under 5 leaves the roster unchanged; committing it with no parent, or under 1, changes only 8's `managerId` |
| Roster.RosterDropOverCto | src/components/Tree/SortableEmployeeTree.tsx:202-221 | dropping 8 on 2 one indent left moves 8 to the top level as written, and under 1 with the intended bound; nothing else in the roster changes |

## Left out

- Rendering and gesture wiring are not modelled: `DndContext`, the sensors,
  collision detection, `DragOverlay`, the portal, the drop animation and the cursor
  style (`SortableEmployeeTree.tsx` 35-62, 127-184, 191, 233). These are view and
  browser concerns. The ids and offsets the library delivers are method parameters.
- Flattening by `@tanstack/react-table` is not modelled (`useReactTable`,
  `getExpandedRowModel`, `getSubRows`, lines 91-98). The library's code is not part
  of this model. The rows are an input, constrained by `ValidRows` and, where a
  lemma needs it, by `TreeRows`.
- `toggleExpanded(false)` on drag start (line 189) acts on the table's state, not
  the component's. Its effect on the rows appears as the `ShowsNoChildren` and
  "no row names the active row as parent" preconditions.
- The `sensorContext` ref (lines 111-125) is written but never read by the core.
- Floating point is not modelled. Offsets and the indent width are integers, and
  `Math.round` is integer round-half-up.
- `@dnd-kit/sortable`'s own `arrayMove` is not verified. `ArrayMove` re-implements
  it on in-range indices, which are the only ones `getProjection` passes.
- JavaScript's `in` operator also sees inherited keys such as `"toString"` or
  `"__proto__"` on the reduce's plain object (line 18). For an entry whose `managerId`
  is such a key, the source takes the `else` branch, and line 21 throws a `TypeError`,
  because the inherited value has no `subordinates` array. The model treats only the
  listed ids as known and puts that entry at the top level instead.
- `getProjection` throws a `TypeError` at line 46 when `activeId` is not among the rows,
  because `activeItem` is then `undefined`. `ProjectionArgs` excludes that input; the
  component passes only ids of rows that the drag library took from the table.
- An `overId` that is not among the rows gives `overItemIndex` -1 at line 39, which
  the source passes on to `arrayMove` and the neighbour lookups without a check.
  `ProjectionArgs` excludes that input as well.
- EmployeeTree.BuildEmployeeTree: nodes hold their subordinates as a list of ids, looked up in
  the id-to-node map, instead of as shared object references. Aliasing between the
  map and the forest is therefore not modelled.
- SortableTree.SortableEmployeeTree.End: the drop commits the projection of the
  literal `getProjection`, as the source does. The corrected projection is proved
  separately and is not wired into the handler.
- The second argument of `findIndex` in `handleDragEnd` (line 211) is the
  `thisArg`, which the arrow callback ignores. It is left out.
- React's asynchronous state updates are not modelled. Each handler updates the
  state at once, and `End` reads the projection and the list of the render that
  handles the event.

## Findings

| source | as written | input that shows it | evidently intended | confidence | as-written member | corrected member |
|---|---|---|---|---|---|---|
| src/components/Tree/utilities.ts:47 | `previousItem?.depth ?? -1 + 1` parses as `previousItem?.depth ?? 0`, so `maxDepth` is the previous row's own depth | rows 1 (depth 0) and 2 (depth 1, parent 1); the projection while 2 is over itself with offset 0 and width 50 (the preview of line 157): depth 0, no parent. A committing drop: in the sample roster, 8 dropped on 2 one indent left goes to the top level (`Roster.RosterDropOverCto`) | `maxDepth` one level below the previous row (`previous.depth + 1`, or 0 with no previous row); the projection over the row itself keeps the row, and the depth always lies in its range | high, not executed | FlattenedRows.MaxDepthAsWrittenLiftsRowOverItself | FlattenedRows.IntendedOverItselfKeepsRow |
