/** The drag/reorder state of `SortableTable` (lib/sortable-table.js:29-159,
    253-254) as a value, with one function per handler giving the state after
    it. The class in `Table` holds the same fields and its methods are proved
    to move between exactly these states; the lemmas here are what the
    handlers promise when they are run one after another.

    The 40 ms timer that `setIndexIfRemainingUnchanged` schedules is never
    cancelled: every scheduled callback stays in `pending`, holding the index
    its closure captured, until it fires. */
module DragState {
  import opened Opt
  import opened Elements
  import opened Projector

  datatype Machine = Machine(
    isDragging: bool,
    oldIndex: Option<nat>,          // None until the first drag start (`undefined`)
    currentIndex: int,              // -1 stands for both `undefined` and the reset value
    columnWidths: seq<nat>,
    sortableColumns: seq<nat>,
    reorder: Option<Reorder>,       // `state.reorder`
    ghostMounted: bool,             // the ghost container is in the document
    pending: seq<nat>)              // timers scheduled and not yet fired

  const Initial := Machine(false, None, -1, [], [], None, false, [])

  predicate NoDuplicates(s: seq<nat>)
  {
    forall i, j :: 0 <= i < j < |s| ==> s[i] != s[j]
  }

  /** What every handler keeps: out of a drag nothing is committed, hovered
      or measured; a committed reorder moves the column the drag started
      from; the ghost is mounted exactly during a drag; `sortableColumns`
      lists each index once. */
  predicate Valid(m: Machine)
  {
    m.currentIndex >= -1
    && (m.isDragging ==> m.oldIndex.Some?)
    && (!m.isDragging ==> m.currentIndex == -1 && m.columnWidths == [] && m.reorder.None?)
    && (m.reorder.Some? ==> m.oldIndex == Some(m.reorder.value.oldIndex))
    && m.ghostMounted == m.isDragging
    && NoDuplicates(m.sortableColumns)
  }

  /** The pushes of `renderCell` (lines 169-171): each found index is
      appended unless already listed. */
  function Absorb(cols: seq<nat>, found: seq<nat>): (r: seq<nat>)
    ensures NoDuplicates(cols) ==> NoDuplicates(r)
    ensures forall x :: x in r <==> x in cols || x in found
    ensures |cols| <= |r| && r[..|cols|] == cols
    decreases |found|
  {
    if found == [] then cols
    else
      var next := if found[0] in cols then cols else cols + [found[0]];
      assert forall x :: x in found <==> x == found[0] || x in found[1..];
      Absorb(next, found[1..])
  }

  /** `tearDownDraggingElements` (lines 115-121). */
  function TornDown(m: Machine): (r: Machine)
    ensures NoDuplicates(m.sortableColumns) ==> Valid(r)
    ensures !r.isDragging && !r.ghostMounted && r.reorder.None? && r.columnWidths == [] && r.currentIndex == -1
    ensures r.oldIndex == m.oldIndex && r.sortableColumns == m.sortableColumns && r.pending == m.pending
  {
    m.(ghostMounted := false, reorder := None, columnWidths := [], currentIndex := -1, isDragging := false)
  }

  /** Tearing down twice leaves the same state as tearing down once. */
  lemma TearDownIdempotent(m: Machine)
    ensures TornDown(TornDown(m)) == TornDown(m)
  {
  }

  /** The column projection `handleDragStart` renders into the ghost: the
      table's content reduced to column `index`, laid out with no reorder and
      no captured widths (teardown has just cleared both). */
  function Preview(children: seq<Node>, index: nat): (r: seq<Node>)
    ensures |r| == |children| && Shapes(r) == Shapes(Project(children, None, index))
    ensures forall i :: 0 <= i < |children| ==> Rendered(View(None, []), children[i], r[i], index)
  {
    RenderChildren(View(None, []), children, index).nodes
  }

  /** `handleDragStart` (lines 125-159): tear down, start dragging from
      `index`, render the ghost projection (which pushes into
      `sortableColumns` too), capture the measured header widths and mount
      the ghost. */
  function DragStarted(m: Machine, index: nat, measured: seq<nat>, children: seq<Node>): (r: Machine)
    ensures Valid(m) ==> Valid(r)
    ensures r.isDragging && r.ghostMounted && r.oldIndex == Some(index)
    ensures r.columnWidths == measured && r.reorder.None? && r.currentIndex == -1
    ensures r.pending == m.pending
    ensures |m.sortableColumns| <= |r.sortableColumns| && r.sortableColumns[..|m.sortableColumns|] == m.sortableColumns
  {
    var t := TornDown(m).(isDragging := true, oldIndex := Some(index));
    var columns := RenderChildren(View(t.reorder, t.columnWidths), children, index);
    t.(sortableColumns := Absorb(t.sortableColumns, columns.found), columnWidths := measured, ghostMounted := true)
  }

  /** `setIndexIfRemainingUnchanged` (lines 75-90): record the hovered index
      and schedule a timer for it unless it is the position the dragged
      column is already shown at. */
  function Hovered(m: Machine, index: nat): (r: Machine)
    ensures r.pending == m.pending + [index] <==> !IsColumnBeingDragged(m.reorder, index)
    ensures r.pending == m.pending || r.pending == m.pending + [index]
    ensures r.currentIndex == index
    ensures r.(currentIndex := m.currentIndex, pending := m.pending) == m
  {
    var scheduled := if IsColumnBeingDragged(m.reorder, index) then m.pending else m.pending + [index];
    assert |scheduled| == |m.pending| ==> scheduled == m.pending;
    m.(currentIndex := index, pending := scheduled)
  }

  /** Whether `handleDragOver` calls `preventDefault`. */
  predicate PreventsDefault(m: Machine, index: nat)
    ensures PreventsDefault(m, index) ==> m.isDragging
    ensures m.isDragging ==> (PreventsDefault(m, index) <==> index in m.sortableColumns)
  {
    m.isDragging && index in m.sortableColumns
  }

  /** `handleDragOver` (lines 92-101): nothing happens unless a drag is on
      and the hovered index is sortable. */
  function DraggedOver(m: Machine, index: nat): (r: Machine)
    ensures !PreventsDefault(m, index) ==> r == m
    ensures PreventsDefault(m, index) ==> r == Hovered(m, index)
    ensures Valid(m) ==> Valid(r)
  {
    if PreventsDefault(m, index) then Hovered(m, index) else m
  }

  /** The re-check of the timer callback (line 80). */
  predicate TimerCommits(m: Machine, k: nat)
    requires k < |m.pending|
    ensures TimerCommits(m, k) ==> m.pending[k] == m.currentIndex
    ensures Valid(m) && !m.isDragging ==> !TimerCommits(m, k)
  {
    m.pending[k] == m.currentIndex && !IsColumnBeingDragged(m.reorder, m.pending[k])
  }

  /** The dragged column is shown where the pointer last was: no timer can
      commit until the next hover. */
  predicate Settled(m: Machine)
  {
    IsColumnBeingDragged(m.reorder, m.currentIndex)
  }

  /** The callback of the `k`-th pending timer fires (lines 79-88). */
  function Fired(m: Machine, k: nat): (r: Machine)
    requires Valid(m) && k < |m.pending|
    ensures Valid(r)
    ensures |r.pending| == |m.pending| - 1
    ensures multiset(r.pending) + multiset{m.pending[k]} == multiset(m.pending)
    ensures r.reorder != m.reorder <==> TimerCommits(m, k)
    ensures TimerCommits(m, k) ==> r.reorder == Some(Reorder(m.oldIndex.value, m.currentIndex)) && Settled(r)
    ensures Settled(m) ==> !TimerCommits(m, k) && Settled(r)
    ensures r.(pending := m.pending, reorder := m.reorder) == m
  {
    var rest := m.pending[..k] + m.pending[k + 1..];
    assert m.pending == m.pending[..k] + [m.pending[k]] + m.pending[k + 1..];
    if TimerCommits(m, k) then m.(pending := rest, reorder := Some(Reorder(m.oldIndex.value, m.pending[k])))
    else m.(pending := rest)
  }

  /** What `handleDrop` reports to `onColumnOrder` (lines 103-110). */
  function DropCommit(m: Machine, index: nat): (r: Option<Reorder>)
    requires Valid(m)
    ensures r.Some? <==> m.isDragging && m.oldIndex != Some(index) && index in m.sortableColumns
    ensures r.Some? ==> m.oldIndex == Some(r.value.oldIndex) && r.value.newIndex == index
    ensures r.Some? ==> r.value.oldIndex != r.value.newIndex
  {
    if m.isDragging && m.oldIndex != Some(index) && index in m.sortableColumns then
      Some(Reorder(m.oldIndex.value, index))
    else None
  }

  /** The state after `handleDrop` (lines 103-113): a drop while dragging
      always tears down; otherwise nothing changes. */
  function Dropped(m: Machine, index: nat): (r: Machine)
    ensures m.isDragging ==> r == TornDown(m)
    ensures !m.isDragging ==> r == m
  {
    if m.isDragging then TornDown(m) else m
  }

  /** The view `render` lays the content out with. */
  function ViewOf(m: Machine): View
  {
    View(m.reorder, m.columnWidths)
  }

  /** `render` (lines 253-265) as far as the state goes: `sortableColumns`
      starts empty and collects the positions the walk reports. */
  function AfterRender(m: Machine, children: seq<Node>): (r: Machine)
    ensures NoDuplicates(r.sortableColumns)
    ensures Valid(m) ==> Valid(r)
    ensures r.(sortableColumns := m.sortableColumns) == m
  {
    m.(sortableColumns := Absorb([], RenderChildren(ViewOf(m), children, -1).found))
  }

  // ---------------------------------------------------------------------
  // Timers firing in the order they were scheduled (all have the same delay)

  /** Every pending timer fires, oldest first, with no other event between. */
  function Drain(m: Machine): (r: Machine)
    requires Valid(m)
    ensures Valid(r) && r.pending == []
    ensures r == m.(pending := [], reorder := r.reorder)
    decreases |m.pending|
  {
    if m.pending == [] then m else Drain(Fired(m, 0))
  }

  /** How many of those callbacks pass the re-check and call `setState`. */
  function CommitCount(m: Machine): nat
    requires Valid(m)
    decreases |m.pending|
  {
    if m.pending == [] then 0
    else (if TimerCommits(m, 0) then 1 else 0) + CommitCount(Fired(m, 0))
  }

  /** Running every pending timer commits at most once, and exactly once
      when a timer for the last hovered index is pending and that index is
      not already where the dragged column is shown; the commit moves the
      dragged column to the last hovered index. */
  lemma {:induction false} DrainOutcome(m: Machine)
    requires Valid(m)
    ensures var commits := m.currentIndex in m.pending && !IsColumnBeingDragged(m.reorder, m.currentIndex);
            && CommitCount(m) == (if commits then 1 else 0)
            && Drain(m).reorder == (if commits then Some(Reorder(m.oldIndex.value, m.currentIndex)) else m.reorder)
            && Drain(m).currentIndex == m.currentIndex
    decreases |m.pending|
  {
    if m.pending != [] {
      var f := Fired(m, 0);
      DrainOutcome(f);
      assert m.pending == [m.pending[0]] + f.pending;
      if TimerCommits(m, 0) {
        assert IsColumnBeingDragged(f.reorder, f.currentIndex);
      }
    }
  }

  /** After a teardown, by drop or drag end, no stale timer commits: the
      reset `currentIndex` matches no captured index. */
  lemma StaleTimersAfterTeardown(m: Machine)
    requires NoDuplicates(m.sortableColumns)
    ensures CommitCount(TornDown(m)) == 0
    ensures Drain(TornDown(m)).reorder == None
  {
    DrainOutcome(TornDown(m));
  }

  /** The same holds at the start of the next drag, until its first hover. */
  lemma StaleTimersAfterDragStart(m: Machine, index: nat, measured: seq<nat>, children: seq<Node>)
    requires Valid(m)
    ensures CommitCount(DragStarted(m, index, measured, children)) == 0
    ensures Drain(DragStarted(m, index, measured, children)).reorder == None
  {
    DrainOutcome(DragStarted(m, index, measured, children));
  }

  /** Hovering two sortable columns before the timers run: the timers of
      both (and any stale ones) fire, `setState` is called once, and the
      reorder moves the dragged column to the last hovered one. */
  lemma LastHoverWins(m: Machine, a: nat, b: nat)
    requires Valid(m) && m.isDragging
    requires a in m.sortableColumns && b in m.sortableColumns
    requires !IsColumnBeingDragged(m.reorder, b)
    ensures var m2 := DraggedOver(DraggedOver(m, a), b);
            && CommitCount(m2) == 1
            && Drain(m2).reorder == Some(Reorder(m.oldIndex.value, b))
  {
    var m2 := DraggedOver(DraggedOver(m, a), b);
    assert m2.pending[|m2.pending| - 1] == b;
    DrainOutcome(m2);
  }

  /** Hovering the position the dragged column is already shown at, any
      number of times, schedules no timer. */
  lemma {:induction false} RepeatedHoverOnTarget(m: Machine, index: nat, times: nat)
    requires IsColumnBeingDragged(m.reorder, index)
    ensures Repeat(m, index, times).pending == m.pending
    ensures Repeat(m, index, times).reorder == m.reorder
    decreases times
  {
    if times > 0 {
      RepeatedHoverOnTarget(DraggedOver(m, index), index, times - 1);
    }
  }

  function Repeat(m: Machine, index: nat, times: nat): Machine
    decreases times
  {
    if times == 0 then m else Repeat(DraggedOver(m, index), index, times - 1)
  }

  /** A timer scheduled in one drag can still commit in the next one, once
      the pointer is over the index it captured again: the component never
      cancels timers. What it commits is what the new drag's own timer for
      that index would commit. */
  lemma StaleTimerInNextDrag()
    ensures var first := DraggedOver(DragStarted(Initial.(sortableColumns := [1]), 0, [], []), 1);
            var second := DraggedOver(DragStarted(TornDown(first), 0, [], []), 1);
            && first.pending == [1]
            && second.pending == [1, 1]
            && TimerCommits(second, 0)
            && Fired(second, 0).reorder == Some(Reorder(0, 1))
  {
    var first := DraggedOver(DragStarted(Initial.(sortableColumns := [1]), 0, [], []), 1);
    assert RenderChildren(View(None, []), [], 0).found == [];
    assert first.sortableColumns == [1] && first.pending == [1];
    var started := DragStarted(TornDown(first), 0, [], []);
    assert started.sortableColumns == [1] && started.pending == [1];
  }

  /** The event sequence of the drag that moves column 2 to position 1:
      drag from the handle of column 2, hover column 1, let the timers run,
      drop on column 1. Whatever timers were left over, exactly one commit
      happens, the drop reports `(2, 1)` and the drag ends. */
  lemma MoveSecondToFirst(m: Machine, measured: seq<nat>, children: seq<Node>)
    requires Valid(m) && 1 in m.sortableColumns
    ensures var started := DragStarted(m, 2, measured, children);
            var hovered := DraggedOver(started, 1);
            var settled := Drain(hovered);
            && PreventsDefault(started, 1)
            && CommitCount(hovered) == 1
            && settled.reorder == Some(Reorder(2, 1))
            && DropCommit(settled, 1) == Some(Reorder(2, 1))
            && Dropped(settled, 1) == TornDown(settled)
  {
    var started := DragStarted(m, 2, measured, children);
    var hovered := DraggedOver(started, 1);
    assert 1 in started.sortableColumns;
    assert hovered.pending[|hovered.pending| - 1] == 1;
    DrainOutcome(hovered);
  }

  /** Dragging over, and dropping on, a column without a handle changes
      nothing and reports nothing; the drop still ends the drag. */
  lemma UnsortableTarget(m: Machine, index: nat)
    requires Valid(m) && m.isDragging && index !in m.sortableColumns
    ensures !PreventsDefault(m, index) && DraggedOver(m, index) == m
    ensures DropCommit(DraggedOver(m, index), index) == None
    ensures !Dropped(DraggedOver(m, index), index).isDragging
  {
  }

  /** Dropping back on the column the drag started from reports nothing. */
  lemma DropOnSource(m: Machine, index: nat, measured: seq<nat>, children: seq<Node>)
    requires Valid(m)
    ensures DropCommit(DragStarted(m, index, measured, children), index) == None
  {
  }

  /** After `render`, `sortableColumns` lists exactly the positions that
      hold a handle, each once. */
  lemma SortableAfterRender(m: Machine, children: seq<Node>, x: nat)
    ensures NoDuplicates(AfterRender(m, children).sortableColumns)
    ensures x in AfterRender(m, children).sortableColumns <==> Reports(children, m.reorder, -1, x)
  {
    ChildrenReported(ViewOf(m), children, -1, x);
  }

  /** The ghost render of a drag start adds at most index 0 to
      `sortableColumns`: the position the single-column projection renders
      the dragged column's cells at, when its header holds a handle. */
  lemma DragStartSortable(m: Machine, index: nat, measured: seq<nat>, children: seq<Node>, x: nat)
    ensures var r := DragStarted(m, index, measured, children);
            x in r.sortableColumns <==> x in m.sortableColumns || (x == 0 && Reports(children, None, index, 0))
  {
    ChildrenReported(View(None, []), children, index, x);
    SingleColumnReportsZero(children, None, index, x);
  }

  /** Before anything is committed no position counts as being dragged, so
      hovering the column the drag started from schedules a timer like any
      other, and that timer commits the move of the column onto itself. */
  lemma HoverSourceBeforeCommit(m: Machine, k: nat)
    requires Valid(m) && m.isDragging && m.reorder.None? && m.oldIndex == Some(k)
    requires k in m.sortableColumns
    ensures var h := DraggedOver(m, k);
            && h.pending == m.pending + [k]
            && TimerCommits(h, |m.pending|)
            && Fired(h, |m.pending|).reorder == Some(Reorder(k, k))
  {
  }

  /** The timer callback does not look at `sortableColumns` again: a render
      between the hover and the timer can leave the committed position
      outside the sortable set. */
  lemma CommitNeedNotBeSortable()
    ensures var hovered := DraggedOver(DragStarted(Initial.(sortableColumns := [1]), 0, [], []), 1);
            var rendered := AfterRender(hovered, []);
            && rendered.sortableColumns == []
            && Fired(rendered, 0).reorder == Some(Reorder(0, 1))
  {
  }

  /** Once the drag is torn down, a render shows every cell at full opacity
      and with no explicit width (unless its own style sets them). */
  lemma RestoredAfterTeardown(m: Machine, row: Node, p: nat)
    requires row.Element? && p < |row.children|
    requires var cell := row.children[p]; cell.Element? && IsCell(cell.kind)
    requires "opacity" !in row.children[p].props.style && "width" !in row.children[p].props.style
    ensures var out := RenderRow(ViewOf(TornDown(m)), row, -1).nodes[0].children[p];
            && out.Element?
            && "opacity" in out.props.style && out.props.style["opacity"] == FullOpacity
            && "width" !in out.props.style
  {
    CellDecoratedAt(ViewOf(TornDown(m)), row, p);
  }
}
