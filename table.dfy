/** The `SortableTable` component instance (lib/sortable-table.js:29-265) as a
    class over the fields its drag handlers update in place. `state.reorder`
    is a field written directly (a `setState` takes effect at once); the
    timers `setTimeout` schedules are the sequence `pendingTimers`, and
    `FireTimer` runs one of their callbacks. Each method is proved to take
    the instance from `State()` to the state the `DragState` function of the
    same handler gives, so the lemmas of `DragState` hold of the class. */
module Table {
  import opened Opt
  import opened Elements
  import opened Projector
  import opened DragState

  class SortableTable {
    var isDragging: bool
    var oldIndex: Option<nat>
    var currentIndex: int
    var columnWidths: seq<nat>
    var sortableColumns: seq<nat>
    var reorder: Option<Reorder>
    var ghostMounted: bool
    var pendingTimers: seq<nat>

    function State(): Machine
      reads this
    {
      Machine(isDragging, oldIndex, currentIndex, columnWidths, sortableColumns, reorder, ghostMounted, pendingTimers)
    }

    /** A fresh instance: not dragging, nothing committed, nothing sortable
        until the first render. */
    constructor ()
      ensures State() == Initial && Valid(State())
    {
      isDragging := false;
      oldIndex := None;
      currentIndex := -1;
      columnWidths := [];
      sortableColumns := [];
      reorder := None;
      ghostMounted := false;
      pendingTimers := [];
    }

    /** `isColumnBeingDragged` (lines 50-52), on the instance's reorder. */
    predicate IsColumnBeingDragged(index: int)
      reads this
      ensures reorder.None? ==> !IsColumnBeingDragged(index)
      ensures IsColumnBeingDragged(index) ==> index == reorder.value.newIndex
    {
      Projector.IsColumnBeingDragged(reorder, index)
    }

    /** `isColumnSortable` (lines 54-56). */
    predicate IsColumnSortable(index: int)
      reads this
      ensures IsColumnSortable(index) ==> 0 <= index
      ensures isDragging ==> (IsColumnSortable(index) <==> index >= 0 && PreventsDefault(State(), index))
    {
      index in sortableColumns
    }

    /** `tearDownDraggingElements` (lines 115-121): the ghost is removed,
        the reorder dropped, the widths and the hovered index reset. */
    method TearDownDraggingElements()
      modifies this
      ensures State() == TornDown(old(State()))
    {
      if ghostMounted {
        ghostMounted := false;
      }
      if reorder.Some? {
        reorder := None;
      }
      columnWidths := [];
      currentIndex := -1;
      isDragging := false;
    }

    /** `handleDragEnd` (line 123). */
    method HandleDragEnd()
      modifies this
      ensures State() == TornDown(old(State()))
    {
      TearDownDraggingElements();
    }

    /** `handleDragStart` (lines 125-159), for a drag started on the handle
        bound to column `index`. `measuredWidths` are the widths the browser
        reports for the header cells; the ghost projection is returned. */
    method HandleDragStart(index: nat, measuredWidths: seq<nat>, children: seq<Node>) returns (preview: seq<Node>)
      modifies this
      ensures State() == DragStarted(old(State()), index, measuredWidths, children)
      ensures preview == Preview(children, index)
    {
      TearDownDraggingElements();
      isDragging := true;
      oldIndex := Some(index);
      var columns := RenderChildren(View(reorder, columnWidths), children, index);
      sortableColumns := Absorb(sortableColumns, columns.found);
      columnWidths := measuredWidths;
      ghostMounted := true;
      preview := columns.nodes;
    }

    /** `setIndexIfRemainingUnchanged` (lines 75-90). */
    method SetIndexIfRemainingUnchanged(index: nat)
      modifies this
      ensures State() == Hovered(old(State()), index)
    {
      currentIndex := index;
      if !IsColumnBeingDragged(index) {
        pendingTimers := pendingTimers + [index];
      }
    }

    /** `handleDragOver` (lines 92-101), for the cell tagged `index`;
        returns whether `preventDefault` was called. */
    method HandleDragOver(index: nat) returns (preventDefault: bool)
      modifies this
      ensures preventDefault == PreventsDefault(old(State()), index)
      ensures State() == DraggedOver(old(State()), index)
    {
      preventDefault := false;
      if !isDragging {
        return;
      }
      if IsColumnSortable(index) {
        preventDefault := true;
        SetIndexIfRemainingUnchanged(index);
      }
    }

    /** The callback of the `k`-th pending timer (lines 79-88). */
    method FireTimer(k: nat)
      requires Valid(State()) && k < |pendingTimers|
      modifies this
      ensures State() == Fired(old(State()), k)
    {
      var index := pendingTimers[k];
      pendingTimers := pendingTimers[..k] + pendingTimers[k + 1..];
      if index == currentIndex && !IsColumnBeingDragged(index) {
        reorder := Some(Reorder(oldIndex.value, index));
      }
    }

    /** `handleDrop` (lines 103-113), for the cell tagged `index`; returns
        the arguments `onColumnOrder` was called with, if it was. */
    method HandleDrop(index: nat) returns (columnOrder: Option<Reorder>)
      requires Valid(State())
      modifies this
      ensures columnOrder == DropCommit(old(State()), index)
      ensures State() == Dropped(old(State()), index)
    {
      columnOrder := None;
      if !isDragging {
        return;
      }
      if oldIndex != Some(index) && IsColumnSortable(index) {
        columnOrder := Some(Reorder(oldIndex.value, index));
      }
      TearDownDraggingElements();
    }

    /** `render` (lines 253-265) up to the row renderer it hands the
        projected content to. */
    method Render(children: seq<Node>) returns (content: seq<Node>)
      modifies this
      ensures State() == AfterRender(old(State()), children)
      ensures content == RenderChildren(ViewOf(old(State())), children, -1).nodes
    {
      sortableColumns := [];
      var projected := RenderChildren(View(reorder, columnWidths), children, -1);
      sortableColumns := Absorb(sortableColumns, projected.found);
      content := projected.nodes;
    }

    /** The event loop running every pending timer in the order they were
        scheduled (they all have the same delay); returns how many of the
        callbacks called `setState`. */
    method RunPendingTimers() returns (setStateCalls: nat)
      requires Valid(State())
      modifies this
      ensures State() == Drain(old(State()))
      ensures setStateCalls == CommitCount(old(State()))
    {
      setStateCalls := 0;
      while pendingTimers != []
        invariant Valid(State())
        invariant Drain(State()) == Drain(old(State()))
        invariant setStateCalls + CommitCount(State()) == CommitCount(old(State()))
        decreases |pendingTimers|
      {
        if TimerCommits(State(), 0) {
          setStateCalls := setStateCalls + 1;
        }
        FireTimer(0);
      }
    }
  }

  /** Two sortable columns hovered before the timers run: `setState` is
      called once, with the column hovered last. */
  method HoverTwoColumns(t: SortableTable, a: nat, b: nat) returns (setStateCalls: nat)
    requires Valid(t.State()) && t.isDragging
    requires a in t.sortableColumns && b in t.sortableColumns
    requires !IsColumnBeingDragged(t.reorder, b)
    modifies t
    ensures setStateCalls == 1
    ensures t.reorder == Some(Reorder(old(t.oldIndex).value, b))
    ensures t.isDragging && t.currentIndex == b && t.pendingTimers == []
  {
    ghost var m := t.State();
    LastHoverWins(m, a, b);
    var preventedA := t.HandleDragOver(a);
    var preventedB := t.HandleDragOver(b);
    setStateCalls := t.RunPendingTimers();
  }

  /** A whole drag on an instance: the handle of column 2 is dragged over
      column 1, the timers run, and the drop on column 1 reports `(2, 1)`
      and ends the drag with nothing committed or measured. */
  method DragSecondOntoFirst(t: SortableTable, measuredWidths: seq<nat>, children: seq<Node>)
    returns (columnOrder: Option<Reorder>)
    requires Valid(t.State()) && 1 in t.sortableColumns
    modifies t
    ensures columnOrder == Some(Reorder(2, 1))
    ensures !t.isDragging && !t.ghostMounted && t.reorder == None && t.columnWidths == [] && t.currentIndex == -1
  {
    MoveSecondToFirst(t.State(), measuredWidths, children);
    var preview := t.HandleDragStart(2, measuredWidths, children);
    var prevented := t.HandleDragOver(1);
    var calls := t.RunPendingTimers();
    columnOrder := t.HandleDrop(1);
  }
}
