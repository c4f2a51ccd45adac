# SortableTable column reordering, modelled in Dafny

`SortableTable` (lib/sortable-table.js) is a React component that wraps a
table and lets the user reorder its columns by dragging a `SortingIcon` handle
in a header cell. This project models its core:

- the **column projector** (`renderChildren`, `renderRow`, `renderRowChildren`,
  `renderCell`, `getCellColumnProps`). It walks the content tree and list-moves
  every row's cells by the committed reorder. It decorates each cell for the
  position it ends up at: its `data-index`, the table's drag handlers, the
  captured width and the drag opacity. It binds the drag handles, and while
  the drag ghost is rendered it keeps only one column. On its way it records
  which positions hold a handle (`sortableColumns`).
- the **drag state machine** (`handleDragStart`, `handleDragOver`,
  `setIndexIfRemainingUnchanged` and its 40 ms timer, `handleDrop`,
  `handleDragEnd`, `tearDownDraggingElements`, `render`). It is written twice:
  - as pure step functions over a `Machine` value (module `DragState`), which
    the lemmas are about;
  - as a class `Table.SortableTable` whose fields the handlers update in place.
    Each of its methods is proved to take the instance to exactly the state
    the matching step function gives.
- the **list move** the rows are reordered with (`lodash-move`, module
  `ListMove`).

Modules, in dependency order:

- `Opt` (option.dfy)
- `ListMove` (move.dfy)
- `Elements` (elements.dfy): the content tree of text and elements with kind,
  props and children.
- `Projector` (projector.dfy)
- `DragState` (drag_state.dfy)
- `Table` (table.dfy)

Modelling conventions:

- `setState({reorder})` is a plain assignment: the handlers read
  `state.reorder` as already updated.
- The `undefined` values the instance starts with are stand-ins:
  - `currentIndex` starts as `-1`, the value teardown writes;
  - `oldIndex` is an `Option`.
- A pending `setTimeout` callback is an entry in the `pending` sequence that
  holds the index its closure captured. `Fired(m, k)` runs any one of them.
  `Drain` runs them oldest first, as timers with the same delay do.

Behaviour of the code worth knowing, each stated by a lemma:

- **Stale timers are not cancelled.** Teardown cancels no timer. A timer
  scheduled in one drag still fires later and can commit in the next drag
  (`DragState.StaleTimerInNextDrag`). After a teardown it commits nothing until
  the next hover (`DragState.StaleTimersAfterTeardown`,
  `DragState.StaleTimersAfterDragStart`).
- **A timer does not check that its target is sortable.** It checks only that
  its index is still the hovered one and not already shown as dragged. A render
  between the hover and the timer can therefore commit a position that is no
  longer sortable (`DragState.CommitNeedNotBeSortable`).
- **Hovering the source column schedules a timer.** Before anything is
  committed, no position counts as "being dragged". Hovering the source column
  then schedules a timer that commits the move of the column onto itself
  (`DragState.HoverSourceBeforeCommit`). That move changes nothing
  (`ListMove.MoveInPlace`).
- **Cells take the width of their position.** The width applied to a cell is
  the captured width of the position it is rendered at after the move, not the
  width of the column it came from (`Projector.CellDecoratedAt`).
- **Drag start can add position 0.** The ghost projection of `handleDragStart`
  reports the dragged column's handle at position 0. Drag start can therefore
  add 0 to `sortableColumns` (`DragState.DragStartSortable`).

## Model

| member | source | states |
|---|---|---|
| ListMove.Move | lib/sortable-table.js:221-225 | the moved row keeps its length and the element taken from `from` lands at `to` (at the last slot when `to` is past the end) |
| ListMove.MoveAt | lib/sortable-table.js:221-225 | every slot after the move holds the element from `Origin`: the moved one at `to`, the ones between shifted by one, the rest in place |
| ListMove.MovePermutes | lib/sortable-table.js:221-225 | reordering a row's children is a permutation: same elements, same multiplicities |
| ListMove.MoveUndone | lib/sortable-table.js:221-225 | moving back from `to` to `from` restores the original order |
| ListMove.MoveInPlace | lib/sortable-table.js:221-225 | a reorder onto the same position leaves a row unchanged |
| Elements.ShapesMove | lib/sortable-table.js:221-225 | dropping props commutes with the move, so the structure of a reordered row is the move of its structure |
| Projector.IsColumnBeingDragged | lib/sortable-table.js:50-52 | no position counts as dragged while no reorder is committed; a position that does is the committed `newIndex` |
| Projector.Reordered | lib/sortable-table.js:216-226 | a row's children keep their number under the reorder, and are untouched while none is committed |
| Projector.Selected | lib/sortable-table.js:231-233 | column -1 keeps every child; a column in range keeps exactly the child at that position, one past the end keeps none |
| Projector.GetCellColumnProps | lib/sortable-table.js:58-73 | the cell is tagged with its index; the table's dragover/drop handlers run before its own; other props stay; its style gains exactly `opacity` and, for a non-zero captured width, `width`; drag opacity iff the index is where the dragged column is shown; own style keys win |
| Projector.BindHandle | lib/sortable-table.js:173-182 | a handle keeps its other props and gets the index, a style of just the grab cursor, `draggable` and the table's drag-start handler in place of its own |
| Projector.BindHandles | lib/sortable-table.js:166-183 | each direct `SortingIcon` child becomes itself with `BindHandle` props; every other child is kept unchanged; the index is reported iff the cell holds a handle |
| Projector.RenderCell | lib/sortable-table.js:165-190 | one node of the cell's kind with props `GetCellColumnProps`, same structure, handles bound to the index; the index is reported iff the cell has a handle |
| Projector.RenderRowChild | lib/sortable-table.js:192-207 | the output is `Decorated` from the input: text kept; a cell (also one inside wrappers) gets `GetCellColumnProps` for the index and its handles bound; a wrapper keeps its kind and props around its decorated children; the index is reported iff the child has a handle |
| Projector.RenderRowChildren | lib/sortable-table.js:192-207 | every node of the list is `Decorated` for the one index; the index is reported iff some node has a handle |
| Projector.RenderPositioned | lib/sortable-table.js:231-232 | the map over a row's children keeps their number and structure |
| Projector.PositionedDecorated | lib/sortable-table.js:232 | the `i`-th child of the row is `Decorated` for position `start + i` |
| Projector.PositionedReports | lib/sortable-table.js:169-171 | a row position is reported iff the child rendered there holds a handle |
| Projector.RenderRow | lib/sortable-table.js:209-235 | the row keeps kind and props; its children are the kept children (all of the moved cells, or the one at `column`), each `Decorated` for its position, or for 0 when one column is rendered |
| Projector.DecoratedUnique | lib/sortable-table.js:192-207 | the relation `Decorated` allows exactly one output per child and position, so the contracts above fix the rendered row, props included |
| Projector.RowReported | lib/sortable-table.js:209-235 | a row reports exactly the positions of its (moved) children that hold a handle, or 0 for the selected column |
| Projector.RowMoved | lib/sortable-table.js:216-232 | with a reorder committed, every row's children are the move of the original ones (a permutation), and every row takes the same child to each position, so header and body stay aligned |
| Projector.CellDecoratedAt | lib/sortable-table.js:58-73 | the cell ending at position `p` of a row is decorated for `p`: drag opacity iff `p` is the shown position, a width iff a non-zero width is captured for `p` |
| Projector.RenderChildren | lib/sortable-table.js:237-251 | every node is `Rendered`: text kept; a row is the decorated `renderRow` output; any other element keeps kind and props around its rendered children; the structure equals the reference `Project` |
| Projector.RenderedUnique | lib/sortable-table.js:237-251 | the relation `Rendered` allows exactly one output per node, so the contract of `RenderChildren` fixes the whole rendered tree |
| Projector.ChildrenReported | lib/sortable-table.js:237-251 | the walk reports exactly the positions of the reference `Reports` |
| Projector.SingleColumnReportsZero | lib/sortable-table.js:233 | when rendering one column, the only position ever reported is 0 |
| DragState.Absorb | lib/sortable-table.js:169-171 | push-if-absent keeps the list duplicate-free, its elements are the old ones and the found ones, and the old list is a prefix |
| DragState.TornDown | lib/sortable-table.js:115-121 | ghost removed, reorder unset, widths cleared, `currentIndex` -1, not dragging; `oldIndex`, `sortableColumns` and the timers untouched; the state invariant holds after it |
| DragState.TearDownIdempotent | lib/sortable-table.js:115-121 | tearing down twice is tearing down once |
| DragState.Preview | lib/sortable-table.js:133 | the ghost content is every node `Rendered` for the one column with no reorder and no widths; its structure is the table reduced to that column |
| DragState.DragStarted | lib/sortable-table.js:125-159 | after the teardown: dragging, ghost mounted, `oldIndex` the dragged column, widths the measured ones, no reorder, `currentIndex` -1, timers untouched, earlier sortable columns kept as a prefix; keeps the invariant |
| DragState.Hovered | lib/sortable-table.js:75-90 | the hovered index is recorded, and a timer for it is scheduled iff it is not the position the dragged column is shown at; nothing else changes |
| DragState.PreventsDefault | lib/sortable-table.js:93-97 | `preventDefault` only during a drag, and then exactly for a sortable index |
| DragState.DraggedOver | lib/sortable-table.js:92-101 | outside a drag or on an unsortable index nothing changes; otherwise it is `Hovered`; keeps the invariant |
| DragState.TimerCommits | lib/sortable-table.js:80 | a callback commits only if its captured index is the hovered one; out of a drag no callback commits |
| DragState.Fired | lib/sortable-table.js:79-88 | one timer leaves the bag; `reorder` changes iff its index is still hovered and not already shown, and then becomes (oldIndex, that index); a settled state stays settled |
| DragState.DropCommit | lib/sortable-table.js:103-110 | `onColumnOrder` is called iff dragging, dropped on a sortable index other than the source, with (oldIndex, index), two different indices |
| DragState.Dropped | lib/sortable-table.js:103-113 | a drop during a drag tears down; otherwise nothing changes |
| DragState.AfterRender | lib/sortable-table.js:253-254 | only `sortableColumns` changes, and it has no duplicates; keeps the invariant |
| DragState.Drain | lib/sortable-table.js:79-88 | after every timer has fired no timer is pending and only `reorder` may have changed |
| DragState.DrainOutcome | lib/sortable-table.js:75-90 | running the timers commits at most once, exactly when a timer for the last hovered index is pending and it is not yet shown as dragged, and the commit moves the dragged column to the last hovered index |
| DragState.StaleTimersAfterTeardown | lib/sortable-table.js:115-121 | after a teardown no pending timer commits |
| DragState.StaleTimersAfterDragStart | lib/sortable-table.js:125-133 | at a new drag start, before any hover, no pending timer commits |
| DragState.LastHoverWins | lib/sortable-table.js:75-101 | two hovers before the timers run: `setState` is called once, with the last hovered column |
| DragState.RepeatedHoverOnTarget | lib/sortable-table.js:75-79 | hovering the position the dragged column is shown at, any number of times, schedules no timer and changes no reorder |
| DragState.StaleTimerInNextDrag | lib/sortable-table.js:79-88 | a timer from an earlier drag is still pending in the next drag and commits there |
| DragState.MoveSecondToFirst | lib/sortable-table.js:75-159 | drag column 2, hover 1, run timers, drop on 1: one commit of (2, 1), the drop reports (2, 1) and ends the drag |
| DragState.UnsortableTarget | lib/sortable-table.js:92-113 | over an unsortable column: no preventDefault, no state change, no report, and the drop still ends the drag |
| DragState.DropOnSource | lib/sortable-table.js:108 | dropping back on the source column reports nothing |
| DragState.SortableAfterRender | lib/sortable-table.js:253-262 | after render, `sortableColumns` lists exactly the positions holding a handle, each once |
| DragState.DragStartSortable | lib/sortable-table.js:133 | the ghost render of drag start adds to `sortableColumns` at most position 0, exactly when the dragged column holds a handle |
| DragState.HoverSourceBeforeCommit | lib/sortable-table.js:75-90 | before any commit, hovering the source column schedules a timer that commits (k, k) |
| DragState.CommitNeedNotBeSortable | lib/sortable-table.js:80 | a timer can commit a position that the latest render no longer lists as sortable |
| DragState.RestoredAfterTeardown | lib/sortable-table.js:67-70 | after teardown, a cell placed directly in a row whose own style sets neither `opacity` nor `width` renders at full opacity with no width (a cell's own style keys still win) |
| Table.SortableTable.constructor | lib/sortable-table.js:29-48 | a new instance is not dragging, has nothing committed, sortable or pending, and satisfies the invariant |
| Table.SortableTable.IsColumnBeingDragged | lib/sortable-table.js:50-52 | no column counts as dragged without a reorder; one that does is its `newIndex` |
| Table.SortableTable.IsColumnSortable | lib/sortable-table.js:54-56 | only non-negative indices are sortable; during a drag an index is sortable iff dragging over it calls `preventDefault` |
| Table.SortableTable.TearDownDraggingElements | lib/sortable-table.js:115-121 | the instance moves to `TornDown` of its state |
| Table.SortableTable.HandleDragEnd | lib/sortable-table.js:123 | drag end is a teardown |
| Table.SortableTable.HandleDragStart | lib/sortable-table.js:125-159 | the instance moves to `DragStarted`; the ghost content is the one-column projection |
| Table.SortableTable.SetIndexIfRemainingUnchanged | lib/sortable-table.js:75-90 | the instance moves to `Hovered` |
| Table.SortableTable.HandleDragOver | lib/sortable-table.js:92-101 | `preventDefault` is called iff dragging over a sortable index; the instance moves to `DraggedOver` |
| Table.SortableTable.FireTimer | lib/sortable-table.js:79-88 | running one timer callback moves the instance to `Fired` |
| Table.SortableTable.HandleDrop | lib/sortable-table.js:103-113 | reports `DropCommit` and moves the instance to `Dropped` |
| Table.SortableTable.Render | lib/sortable-table.js:253-262 | recomputes `sortableColumns` (`AfterRender`) and returns the projected content |
| Table.SortableTable.RunPendingTimers | lib/sortable-table.js:79-88 | running every timer, oldest first, moves the instance to `Drain` and calls `setState` `CommitCount` times |
| Table.HoverTwoColumns | test/spec/sortable-table.js:418-446 | two hovers then the timers: `setState` once, reorder to the last hovered column, no timer left |
| Table.DragSecondOntoFirst | test/spec/sortable-table.js:237-310 | a full drag of column 2 onto 1 on an instance reports (2, 1) and leaves nothing dragged, committed or measured |

## Left out

- DOM measurement: the widths of the header cells (`offsetWidth` of `table thead tr th`) are a parameter of `HandleDragStart`.
- The ghost container's DOM (position, left offset, width, `ReactDOM.render`) and `setDragImage(ghost, width / 2, 0)` are not modelled; the ghost is a flag and its content the returned projection.
- `ProgressiveTable`, `ghostRowsLimit`, the wrapping `div` and its ref (`setElement`) are rendering shell, not modelled.
- React keys, `React.Children.toArray`/`map` flattening, fragments and `null`/`false` children are not modelled; the content tree has text and elements only.
- ListMove.Move: a `from` past the end of a row leaves the row unchanged, whereas lodash-move inserts an `undefined` hole at `to` (or at the end). This happens for a body row with fewer children than the header when the dragged column is past its end. React still counts the hole when it maps the row, so in lib/sortable-table.js every later cell of that row is tagged, sized and dimmed for the position one higher; the model renders such a row without the shift.
- The 40 ms delay itself and interleaving of timers with other events by wall-clock time are not modelled: timers are a bag fired by explicit events, oldest first in `Drain`.
- `dragOpacity` is the opaque value `DragOpacity`, not a number; width strings `Npx` are `Px(N)`.
- `setState` batching and re-rendering are not modelled: `reorder` is written at once and `render` is a separate step.
- `parseInt` of `data-index` is not modelled: handlers receive the index as a natural number.
- lib/sorting-icon.js is not part of this model beyond the `SortingIcon` element kind.
- Element types configured through `tr`/`th`/`td` props are the fixed kinds `Row`, `HeaderCell` and `BodyCell`.
