/** The column projector of `SortableTable` (lib/sortable-table.js:58-73 and
    165-251): it walks the content tree, list-moves every row's cells by the
    committed reorder, decorates every cell by its position after the move,
    binds drag handles, and, when asked for one column, keeps only that
    column's cell in each row (the drag ghost). The walk also reports, in
    visiting order, every position at which it bound a drag handle: the
    indices the component pushes into `sortableColumns` as it goes. */
module Projector {
  import opened Opt
  import opened ListMove
  import opened Elements

  /** `state.reorder`: the column being dragged and the position it is shown at. */
  datatype Reorder = Reorder(oldIndex: nat, newIndex: nat)

  /** What the projector reads from the table instance. */
  datatype View = View(reorder: Option<Reorder>, widths: seq<nat>)

  /** Nodes produced, and the positions found holding a drag handle, in the
      order the walk met them (with repeats). */
  datatype Projection = Projection(nodes: seq<Node>, found: seq<nat>)

  /** `isColumnBeingDragged`: only the position a committed reorder shows the
      dragged column at; no position at all while nothing is committed. */
  predicate IsColumnBeingDragged(reorder: Option<Reorder>, index: int)
    ensures reorder.None? ==> !IsColumnBeingDragged(reorder, index)
    ensures IsColumnBeingDragged(reorder, index) ==> 0 <= index && index == reorder.value.newIndex
  {
    reorder.Some? && reorder.value.newIndex == index
  }

  /** A row's children as `renderRow` lays them out: list-moved when a
      reorder is committed, as given otherwise. */
  function Reordered<T>(reorder: Option<Reorder>, s: seq<T>): (r: seq<T>)
    ensures |r| == |s|
    ensures reorder.None? ==> r == s
  {
    match reorder
    case None => s
    case Some(r) =>
      MovePermutes(s, r.oldIndex, r.newIndex);
      Move(s, r.oldIndex, r.newIndex)
  }

  /** The children a row keeps: all of them, or with `column` set only the
      one at that position (none when the row is shorter). */
  function Selected<T>(s: seq<T>, column: int): (r: seq<T>)
    ensures column == -1 ==> r == s
    ensures column != -1 ==> |r| <= 1
    ensures 0 <= column < |s| ==> r == [s[column]]
    ensures column != -1 && !(0 <= column < |s|) ==> r == []
  {
    if column == -1 then s
    else if 0 <= column < |s| then [s[column]]
    else []
  }

  /** `getCellColumnProps`: the cell keeps its own props, is tagged with its
      position, runs the table's drag-over and drop handlers before its own,
      and gets a style whose width is the captured width of its position (if
      there is one and it is not zero) and whose opacity is the drag opacity
      exactly at the position the dragged column is shown at; any key of the
      cell's own style wins over both. */
  function GetCellColumnProps(v: View, p: Props, index: nat): (r: Props)
    ensures r.dataIndex == Some(index)
    ensures r.onDragOver == [LibraryDragOver] + p.onDragOver
    ensures r.onDrop == [LibraryDrop] + p.onDrop
    ensures r.attrs == p.attrs && r.draggable == p.draggable && r.onDragStart == p.onDragStart
    ensures forall k :: k in p.style ==> k in r.style && r.style[k] == p.style[k]
    ensures r.style.Keys == p.style.Keys + {"opacity"}
                            + (if index < |v.widths| && v.widths[index] != 0 then {"width"} else {})
    ensures "opacity" !in p.style ==>
              r.style["opacity"] == (if IsColumnBeingDragged(v.reorder, index) then DragOpacity else FullOpacity)
    ensures "width" !in p.style && "width" in r.style ==> r.style["width"] == Px(v.widths[index])
  {
    var width: map<string, StyleValue> :=
      if index < |v.widths| && v.widths[index] != 0 then map["width" := Px(v.widths[index])] else map[];
    var opacity := if IsColumnBeingDragged(v.reorder, index) then DragOpacity else FullOpacity;
    p.(dataIndex := Some(index),
       onDragOver := [LibraryDragOver] + p.onDragOver,
       onDrop := [LibraryDrop] + p.onDrop,
       style := width + map["opacity" := opacity] + p.style)
  }

  /** The props a drag handle inside a cell gets: its own props with the
      position, a grab cursor as its whole style, `draggable` and the table's
      drag-start handler in place of its own. */
  function BindHandle(p: Props, index: nat): (r: Props)
    ensures r.dataIndex == Some(index) && r.draggable
    ensures r.style == map["cursor" := Grab] && r.onDragStart == [LibraryDragStart]
    ensures r.attrs == p.attrs && r.onDragOver == p.onDragOver && r.onDrop == p.onDrop
  {
    p.(dataIndex := Some(index), style := map["cursor" := Grab], draggable := true,
       onDragStart := [LibraryDragStart])
  }

  /** What `renderCell` makes of one of the cell's direct children: a drag
      handle gets `BindHandle` props for position `p`, anything else is kept
      as it is. */
  predicate HandleBound(c: Node, out: Node, p: nat)
  {
    if IsHandle(c) then out == c.(props := BindHandle(c.props, p)) else out == c
  }

  /** Every reported position is `index`. */
  predicate OnlyAt(found: seq<nat>, index: nat)
  {
    forall x :: x in found ==> x == index
  }

  /** The children map of `renderCell`: each direct child that is a drag
      handle is bound to the cell's position and reported; every other child
      is passed through untouched (a handle nested deeper is not seen). */
  function BindHandles(cs: seq<Node>, index: nat): (r: Projection)
    ensures |r.nodes| == |cs|
    ensures forall i :: 0 <= i < |cs| ==> HandleBound(cs[i], r.nodes[i], index)
    ensures Shapes(r.nodes) == Shapes(cs)
    ensures OnlyAt(r.found, index) && (r.found != [] <==> HoldsHandle(cs))
  {
    if cs == [] then Projection([], [])
    else
      var rest := BindHandles(cs[1..], index);
      var c := cs[0];
      var node := if IsHandle(c) then c.(props := BindHandle(c.props, index)) else c;
      var found := if IsHandle(c) then [index] else [];
      var r := Projection([node] + rest.nodes, found + rest.found);
      assert Shapes(r.nodes) == Shapes(cs) by {
        assert cs == [c] + cs[1..];
        ShapesConcat([c], cs[1..]);
        ShapesConcat([node], rest.nodes);
      }
      HoldsHandleStep(cs);
      assert forall i :: 0 <= i < |cs| ==> HandleBound(cs[i], r.nodes[i], index) by {
        forall i | 0 <= i < |cs|
          ensures HandleBound(cs[i], r.nodes[i], index)
        {
          if i > 0 {
            assert r.nodes[i] == rest.nodes[i - 1];
            assert cs[i] == cs[1..][i - 1];
          }
        }
      }
      r
  }

  lemma HoldsHandleStep(cs: seq<Node>)
    requires cs != []
    ensures HoldsHandle(cs) <==> IsHandle(cs[0]) || HoldsHandle(cs[1..])
  {
    if HoldsHandle(cs[1..]) {
      var i :| 0 <= i < |cs[1..]| && IsHandle(cs[1..][i]);
      assert IsHandle(cs[i + 1]);
    }
    if HoldsHandle(cs) && !IsHandle(cs[0]) {
      var i :| 0 <= i < |cs| && IsHandle(cs[i]);
      assert i != 0;
      assert cs[1..][i - 1] == cs[i];
    }
  }

  lemma HasHandleStep(ns: seq<Node>)
    requires ns != []
    ensures (exists c :: c in ns && HasHandle(c)) <==> HasHandle(ns[0]) || exists c :: c in ns[1..] && HasHandle(c)
  {
    assert forall x :: x in ns <==> x == ns[0] || x in ns[1..];
  }

  /** What the table makes of a row child `n` rendered for position `p`:
      text is kept; a cell keeps its kind, gets `GetCellColumnProps` for `p`
      and has its direct drag handles bound to `p`; any other element keeps
      its kind and props and its children are related in the same way. The
      relation leaves exactly one output possible (`DecoratedUnique`). */
  predicate Decorated(v: View, n: Node, out: Node, p: nat)
    decreases n
  {
    match n
    case Text(_) => out == n
    case Element(k, props, cs) =>
      out.Element? && out.kind == k && |out.children| == |cs|
      && if IsCell(k) then
           out.props == GetCellColumnProps(v, props, p)
           && forall i :: 0 <= i < |cs| ==> HandleBound(cs[i], out.children[i], p)
         else
           out.props == props
           && forall i :: 0 <= i < |cs| ==> Decorated(v, cs[i], out.children[i], p)
  }

  /** `renderCell`: the cell with decorated props and bound drag handles. */
  function RenderCell(v: View, n: Node, index: nat): (r: Projection)
    requires n.Element? && IsCell(n.kind)
    ensures |r.nodes| == 1 && r.nodes[0].Element? && r.nodes[0].kind == n.kind
    ensures r.nodes[0].props == GetCellColumnProps(v, n.props, index)
    ensures Decorated(v, n, r.nodes[0], index)
    ensures Shape(r.nodes[0]) == Shape(n)
    ensures OnlyAt(r.found, index) && (r.found != [] <==> HasHandle(n))
  {
    var cs := BindHandles(n.children, index);
    Projection([Element(n.kind, GetCellColumnProps(v, n.props, index), cs.nodes)], cs.found)
  }

  /** `renderRowChildren` on one node: text passes through, a cell is
      rendered at `index`, any other element is rebuilt around its children
      rendered at the same `index`. */
  function RenderRowChild(v: View, n: Node, index: nat): (r: Projection)
    ensures |r.nodes| == 1 && Shape(r.nodes[0]) == Shape(n)
    ensures Decorated(v, n, r.nodes[0], index)
    ensures OnlyAt(r.found, index) && (r.found != [] <==> HasHandle(n))
  {
    match n
    case Text(_) => Projection([n], [])
    case Element(k, p, cs) =>
      if IsCell(k) then RenderCell(v, n, index)
      else
        var inner := RenderRowChildren(v, cs, index);
        Projection([Element(k, p, inner.nodes)], inner.found)
  }

  /** `renderRowChildren`: every node of a list rendered at the one `index`. */
  function RenderRowChildren(v: View, ns: seq<Node>, index: nat): (r: Projection)
    ensures |r.nodes| == |ns| && Shapes(r.nodes) == Shapes(ns)
    ensures forall i :: 0 <= i < |ns| ==> Decorated(v, ns[i], r.nodes[i], index)
    ensures OnlyAt(r.found, index) && (r.found != [] <==> exists c :: c in ns && HasHandle(c))
  {
    if ns == [] then Projection([], [])
    else
      var a := RenderRowChild(v, ns[0], index);
      var b := RenderRowChildren(v, ns[1..], index);
      var r := Projection(a.nodes + b.nodes, a.found + b.found);
      assert Shapes(r.nodes) == Shapes(ns) by {
        assert ns == [ns[0]] + ns[1..];
        ShapesConcat([ns[0]], ns[1..]);
        ShapesConcat(a.nodes, b.nodes);
      }
      HasHandleStep(ns);
      assert forall i :: 0 <= i < |ns| ==> Decorated(v, ns[i], r.nodes[i], index) by {
        forall i | 0 <= i < |ns|
          ensures Decorated(v, ns[i], r.nodes[i], index)
        {
          if i > 0 {
            assert r.nodes[i] == b.nodes[i - 1];
            assert ns[i] == ns[1..][i - 1];
          }
        }
      }
      r
  }

  /** The map `renderRow` runs over a row's (reordered) children: the child
      at position `i` is rendered at index `start + i` (`PositionedDecorated`);
      a position is reported exactly when the child there holds a handle
      (`PositionedReports`). */
  function RenderPositioned(v: View, ns: seq<Node>, start: nat): (r: Projection)
    ensures |r.nodes| == |ns| && Shapes(r.nodes) == Shapes(ns)
  {
    if ns == [] then Projection([], [])
    else
      var a := RenderRowChild(v, ns[0], start);
      var b := RenderPositioned(v, ns[1..], start + 1);
      var r := Projection(a.nodes + b.nodes, a.found + b.found);
      assert Shapes(r.nodes) == Shapes(ns) by {
        assert ns == [ns[0]] + ns[1..];
        ShapesConcat([ns[0]], ns[1..]);
        ShapesConcat(a.nodes, b.nodes);
      }
      r
  }

  /** The child the map of `renderRow` puts at position `i` is the `i`-th
      child decorated for position `start + i`. */
  lemma {:induction false} PositionedDecorated(v: View, ns: seq<Node>, start: nat, i: nat)
    requires i < |ns|
    ensures Decorated(v, ns[i], RenderPositioned(v, ns, start).nodes[i], start + i)
    decreases ns
  {
    var r := RenderPositioned(v, ns, start).nodes;
    var a := RenderRowChild(v, ns[0], start).nodes;
    var b := RenderPositioned(v, ns[1..], start + 1).nodes;
    assert r == a + b;
    if i == 0 {
      assert r[0] == a[0];
    } else {
      PositionedDecorated(v, ns[1..], start + 1, i - 1);
      assert ns[i] == ns[1..][i - 1];
      assert r[i] == b[i - 1];
    }
  }

  /** One step of the map of `renderRow`: the first child is reported at
      `start`, the rest from `start + 1` on. */
  lemma PositionedFound(v: View, ns: seq<Node>, start: nat, x: nat)
    requires ns != []
    ensures x in RenderPositioned(v, ns, start).found
            <==> (x == start && HasHandle(ns[0])) || x in RenderPositioned(v, ns[1..], start + 1).found
  {
    var a := RenderRowChild(v, ns[0], start).found;
    assert RenderPositioned(v, ns, start).found == a + RenderPositioned(v, ns[1..], start + 1).found;
    if x == start && HasHandle(ns[0]) {
      assert a[0] in a;
    }
  }

  /** A position is reported by the map of `renderRow` exactly when the
      child rendered there holds a drag handle. */
  lemma {:induction false} PositionedReports(v: View, ns: seq<Node>, start: nat, x: nat)
    ensures x in RenderPositioned(v, ns, start).found <==> start <= x < start + |ns| && HasHandle(ns[x - start])
    decreases ns
  {
    if ns != [] {
      PositionedReports(v, ns[1..], start + 1, x);
      PositionedFound(v, ns, start, x);
      if x == start {
      } else if start < x < start + |ns| {
        assert ns[1..][x - (start + 1)] == ns[x - start];
      } else {
        assert !(start + 1 <= x < start + |ns|);
      }
    }
  }

  /** Whether a row whose children are laid out as `cells` reports position
      `x`: with no column set, every position whose child holds a handle;
      with `column` set, position 0 (the index the single-column projection
      renders at) when the kept child holds one. */
  predicate RowReports(cells: seq<Node>, column: int, x: nat)
  {
    if column == -1 then x < |cells| && HasHandle(cells[x])
    else x == 0 && 0 <= column < |cells| && HasHandle(cells[column])
  }

  /** The children `renderRow` produces from the children it keeps, `cells`:
      the child at position `i` decorated for `i` or, when one column is
      rendered, for 0. */
  predicate RowDecorated(v: View, cells: seq<Node>, out: seq<Node>, column: int)
  {
    |out| == |cells|
    && forall i :: 0 <= i < |cells| ==> Decorated(v, cells[i], out[i], if column == -1 then i else 0)
  }

  /** `renderRow`: the row keeps its kind and props; its children are laid
      out by the reorder, then either all rendered at their new positions or,
      with `column` set, reduced to the one at that position rendered at 0. */
  function RenderRow(v: View, row: Node, column: int): (r: Projection)
    requires row.Element?
    ensures |r.nodes| == 1 && r.nodes[0].Element?
    ensures r.nodes[0].kind == row.kind && r.nodes[0].props == row.props
    ensures Shapes(r.nodes[0].children) == Shapes(Selected(Reordered(v.reorder, row.children), column))
    ensures RowDecorated(v, Selected(Reordered(v.reorder, row.children), column), r.nodes[0].children, column)
  {
    var cells := Reordered(v.reorder, row.children);
    var inner :=
      if column == -1 then RenderPositioned(v, cells, 0)
      else if 0 <= column < |cells| then RenderRowChild(v, cells[column], 0)
      else Projection([], []);
    assert column == -1 ==> RowDecorated(v, cells, inner.nodes, column) by {
      if column == -1 {
        forall i | 0 <= i < |cells|
          ensures Decorated(v, cells[i], inner.nodes[i], i)
        {
          PositionedDecorated(v, cells, 0, i);
        }
      }
    }
    Projection([Element(row.kind, row.props, inner.nodes)], inner.found)
  }

  /** What `renderChildren` makes of a node: text is kept; a row keeps its
      kind and props and its kept children are decorated by position
      (`RowDecorated`); any other element keeps its kind and props and its
      children are related in the same way. */
  predicate Rendered(v: View, n: Node, out: Node, column: int)
    decreases n
  {
    match n
    case Text(_) => out == n
    case Element(k, props, cs) =>
      out.Element? && out.kind == k && out.props == props
      && if k == Row then
           RowDecorated(v, Selected(Reordered(v.reorder, cs), column), out.children, column)
         else
           |out.children| == |cs| && forall i :: 0 <= i < |cs| ==> Rendered(v, cs[i], out.children[i], column)
  }

  /** Reference for the tree `renderChildren` produces, props aside: every
      row's children laid out by the reorder and narrowed to `column`, every
      other element rebuilt around its children, text unchanged. */
  function Project(ns: seq<Node>, reorder: Option<Reorder>, column: int): (r: seq<Node>)
    ensures |r| == |ns|
  {
    if ns == [] then []
    else
      var n := match ns[0]
        case Text(_) => ns[0]
        case Element(k, p, cs) =>
          if k == Row then Element(k, p, Selected(Reordered(reorder, cs), column))
          else Element(k, p, Project(cs, reorder, column));
      [n] + Project(ns[1..], reorder, column)
  }

  /** Reference for the positions `renderChildren` reports: those of every
      row met outside rows. */
  predicate Reports(ns: seq<Node>, reorder: Option<Reorder>, column: int, x: nat)
  {
    if ns == [] then false
    else
      var here := match ns[0]
        case Text(_) => false
        case Element(k, _, cs) =>
          if k == Row then RowReports(Reordered(reorder, cs), column, x)
          else Reports(cs, reorder, column, x);
      here || Reports(ns[1..], reorder, column, x)
  }

  /** `renderChildren`: rows are rendered by `renderRow`, text passes
      through, any other element is rebuilt around its rendered children. */
  function RenderChildren(v: View, ns: seq<Node>, column: int): (r: Projection)
    ensures |r.nodes| == |ns| && Shapes(r.nodes) == Shapes(Project(ns, v.reorder, column))
    ensures forall i :: 0 <= i < |ns| ==> Rendered(v, ns[i], r.nodes[i], column)
  {
    if ns == [] then Projection([], [])
    else
      var a := match ns[0]
        case Text(_) => Projection([ns[0]], [])
        case Element(k, p, cs) =>
          if k == Row then RenderRow(v, ns[0], column)
          else
            var inner := RenderChildren(v, cs, column);
            Projection([Element(k, p, inner.nodes)], inner.found);
      var b := RenderChildren(v, ns[1..], column);
      var pr := Project(ns, v.reorder, column);
      assert pr == [pr[0]] + Project(ns[1..], v.reorder, column);
      ShapesConcat(a.nodes, b.nodes);
      ShapesConcat([pr[0]], Project(ns[1..], v.reorder, column));
      var r := Projection(a.nodes + b.nodes, a.found + b.found);
      assert |r.nodes| == |ns| by {
        assert |Shapes(r.nodes)| == |Project(ns, v.reorder, column)|;
      }
      assert forall i :: 0 <= i < |ns| ==> Rendered(v, ns[i], r.nodes[i], column) by {
        forall i | 0 <= i < |ns|
          ensures Rendered(v, ns[i], r.nodes[i], column)
        {
          if i > 0 {
            assert r.nodes[i] == b.nodes[i - 1];
            assert ns[i] == ns[1..][i - 1];
          }
        }
      }
      r
  }

  /** A row reports exactly the positions `RowReports` names. */
  lemma RowReported(v: View, row: Node, column: int, x: nat)
    requires row.Element?
    ensures x in RenderRow(v, row, column).found <==> RowReports(Reordered(v.reorder, row.children), column, x)
  {
    var cells := Reordered(v.reorder, row.children);
    var found := RenderRow(v, row, column).found;
    if column == -1 {
      assert found == RenderPositioned(v, cells, 0).found;
      PositionedReports(v, cells, 0, x);
    } else if 0 <= column < |cells| {
      var a := RenderRowChild(v, cells[column], 0);
      assert found == a.found;
      if x == 0 && HasHandle(cells[column]) {
        assert a.found[0] in a.found;
      }
    } else {
      assert found == [];
    }
  }

  /** The walk of `renderChildren` reports exactly the positions of the
      reference `Reports`. */
  lemma {:induction false} ChildrenReported(v: View, ns: seq<Node>, column: int, x: nat)
    ensures x in RenderChildren(v, ns, column).found <==> Reports(ns, v.reorder, column, x)
    decreases ns
  {
    if ns != [] {
      ChildrenReported(v, ns[1..], column, x);
      match ns[0]
      case Text(_) =>
      case Element(k, p, cs) =>
        if k == Row {
          RowReported(v, ns[0], column, x);
        } else {
          ChildrenReported(v, cs, column, x);
        }
    }
  }

  /** With a column set, the only position ever reported is 0. */
  lemma {:induction false} SingleColumnReportsZero(ns: seq<Node>, reorder: Option<Reorder>, column: int, x: nat)
    requires column != -1
    ensures Reports(ns, reorder, column, x) ==> x == 0
    decreases ns
  {
    if ns != [] {
      SingleColumnReportsZero(ns[1..], reorder, column, x);
      match ns[0]
      case Text(_) =>
      case Element(k, _, cs) =>
        if k != Row {
          SingleColumnReportsZero(cs, reorder, column, x);
        }
    }
  }

  /** With a reorder committed, every row's children are the list-move of
      its original children by `(oldIndex, newIndex)`, props aside: the same
      children, each as often, and the child shown at position `i` is the
      original child at `Origin(oldIndex, newIndex, i)` whatever the row, so
      the header and every body row stay aligned. */
  lemma RowMoved(v: View, row: Node, i: nat)
    requires row.Element? && v.reorder.Some?
    ensures var out := RenderRow(v, row, -1).nodes[0].children;
            var r := v.reorder.value;
            && Shapes(out) == Move(Shapes(row.children), r.oldIndex, r.newIndex)
            && multiset(Shapes(out)) == multiset(Shapes(row.children))
            && (r.oldIndex < |row.children| && r.newIndex < |row.children| && i < |row.children| ==>
                  Shape(out[i]) == Shape(row.children[Origin(r.oldIndex, r.newIndex, i)]))
  {
    var r := v.reorder.value;
    var out := RenderRow(v, row, -1).nodes[0].children;
    ShapesMove(row.children, r.oldIndex, r.newIndex);
    MovePermutes(Shapes(row.children), r.oldIndex, r.newIndex);
    if r.oldIndex < |row.children| && r.newIndex < |row.children| && i < |row.children| {
      MoveAt(row.children, r.oldIndex, r.newIndex, i);
      ShapesAt(out, i);
      ShapesAt(Move(row.children, r.oldIndex, r.newIndex), i);
    }
  }

  /** A cell that ends up at position `p` of a row is decorated for `p`: it
      is dimmed exactly when `p` is where the dragged column is shown, and
      gets an explicit width exactly when a non-zero width was captured for
      `p` (unless its own style sets these keys). */
  lemma CellDecoratedAt(v: View, row: Node, p: nat)
    requires row.Element? && p < |row.children|
    requires var cell := Reordered(v.reorder, row.children)[p]; cell.Element? && IsCell(cell.kind)
    ensures var cell := Reordered(v.reorder, row.children)[p];
            var out := RenderRow(v, row, -1).nodes[0].children[p];
            && out.Element? && out.kind == cell.kind
            && out.props == GetCellColumnProps(v, cell.props, p)
            && ("opacity" !in cell.props.style ==>
                  (out.props.style["opacity"] == DragOpacity <==> IsColumnBeingDragged(v.reorder, p)))
            && ("width" !in cell.props.style ==>
                  ("width" in out.props.style <==> p < |v.widths| && v.widths[p] != 0))
  {
    var cells := Reordered(v.reorder, row.children);
    assert Decorated(v, cells[p], RenderRow(v, row, -1).nodes[0].children[p], p);
  }

  /** `Decorated` leaves one output per row child: two outputs it relates to
      the same child at the same position are equal. */
  lemma {:induction false} DecoratedUnique(v: View, n: Node, o1: Node, o2: Node, p: nat)
    requires Decorated(v, n, o1, p) && Decorated(v, n, o2, p)
    ensures o1 == o2
    decreases n
  {
    match n
    case Text(_) =>
    case Element(k, props, cs) =>
      forall i | 0 <= i < |cs|
        ensures o1.children[i] == o2.children[i]
      {
        if !IsCell(k) {
          DecoratedUnique(v, cs[i], o1.children[i], o2.children[i], p);
        }
      }
      assert o1.children == o2.children;
  }

  /** `Rendered` leaves one output per node, so the contract of
      `RenderChildren` fixes the whole rendered tree, props included. */
  lemma {:induction false} RenderedUnique(v: View, n: Node, o1: Node, o2: Node, column: int)
    requires Rendered(v, n, o1, column) && Rendered(v, n, o2, column)
    ensures o1 == o2
    decreases n
  {
    match n
    case Text(_) =>
    case Element(k, props, cs) =>
      if k == Row {
        var cells := Selected(Reordered(v.reorder, cs), column);
        forall i | 0 <= i < |cells|
          ensures o1.children[i] == o2.children[i]
        {
          DecoratedUnique(v, cells[i], o1.children[i], o2.children[i], if column == -1 then i else 0);
        }
      } else {
        forall i | 0 <= i < |cs|
          ensures o1.children[i] == o2.children[i]
        {
          RenderedUnique(v, cs[i], o1.children[i], o2.children[i], column);
        }
      }
      assert o1.children == o2.children;
  }
}
