/** The content tree the table is given as children and hands on to the row
    renderer: text, and elements with a kind, their props and their children.
    Only the props the table reads or writes are kept apart; every other prop
    travels in `attrs`. */
module Elements {
  import opened Opt
  import opened ListMove

  /** An event handler. A prop that holds several of them runs them in order. */
  datatype Handler = LibraryDragStart | LibraryDragOver | LibraryDrop | CallerHandler(id: nat)

  /** A value of an inline style key: a pixel width, the two opacities the
      table sets, the grab cursor of a drag handle, or anything the caller
      wrote. */
  datatype StyleValue = Px(pixels: nat) | FullOpacity | DragOpacity | Grab | Given(text: string)

  datatype Props = Props(
    attrs: map<string, string>,
    dataIndex: Option<nat>,
    style: map<string, StyleValue>,
    draggable: bool,
    onDragStart: seq<Handler>,
    onDragOver: seq<Handler>,
    onDrop: seq<Handler>)

  /** `Row`, `HeaderCell` and `BodyCell` stand for the element types the table
      is configured with as `tr`, `th` and `td`; `SortingIcon` is the drag
      handle marker. */
  datatype Kind = Row | HeaderCell | BodyCell | SortingIcon | Other(tag: string)

  datatype Node = Text(text: string) | Element(kind: Kind, props: Props, children: seq<Node>)

  predicate IsCell(k: Kind)
  {
    k == HeaderCell || k == BodyCell
  }

  const NoProps := Props(map[], None, map[], false, [], [], [])

  /** The structure and text of a node with every prop dropped: what stays the
      same when the table decorates cells and drag handles. */
  function Shape(n: Node): Node
  {
    match n
    case Text(_) => n
    case Element(k, _, cs) => Element(k, NoProps, Shapes(cs))
  }

  function Shapes(ns: seq<Node>): (r: seq<Node>)
    ensures |r| == |ns|
  {
    if ns == [] then [] else [Shape(ns[0])] + Shapes(ns[1..])
  }

  lemma {:induction false} ShapesAt(ns: seq<Node>, i: nat)
    requires i < |ns|
    ensures Shapes(ns)[i] == Shape(ns[i])
    decreases ns
  {
    if i > 0 {
      ShapesAt(ns[1..], i - 1);
    }
  }

  lemma {:induction false} ShapesConcat(a: seq<Node>, b: seq<Node>)
    ensures Shapes(a + b) == Shapes(a) + Shapes(b)
    decreases a
  {
    if a == [] {
      assert a + b == b;
    } else {
      ShapesConcat(a[1..], b);
      assert (a + b)[1..] == a[1..] + b;
      assert (a + b)[0] == a[0];
    }
  }

  /** Dropping props commutes with moving a column. */
  lemma {:induction false} ShapesMove(s: seq<Node>, from: nat, to: nat)
    ensures Shapes(Move(s, from, to)) == Move(Shapes(s), from, to)
  {
    if from < |s| {
      var to' := if to < |s| then to else |s| - 1;
      assert Move(s, from, to) == Move(s, from, to');
      assert Move(Shapes(s), from, to) == Move(Shapes(s), from, to');
      forall i | 0 <= i < |s|
        ensures Shapes(Move(s, from, to))[i] == Move(Shapes(s), from, to)[i]
      {
        MoveAt(s, from, to', i);
        MoveAt(Shapes(s), from, to', i);
        ShapesAt(Move(s, from, to), i);
        ShapesAt(s, Origin(from, to', i));
      }
    }
  }

  /** Whether a row child, at whatever position it ends up, makes that
      position sortable: it is a cell with a drag handle among its direct
      children, or a wrapper (anything but text or a cell) around such a
      child. A handle nested deeper inside a cell does not count. */
  predicate HasHandle(n: Node)
  {
    match n
    case Text(_) => false
    case Element(k, _, cs) =>
      if IsCell(k) then HoldsHandle(cs)
      else exists c :: c in cs && HasHandle(c)
  }

  predicate IsHandle(n: Node)
  {
    n.Element? && n.kind == SortingIcon
  }

  /** Some node of the list is itself a drag handle. */
  predicate HoldsHandle(cs: seq<Node>)
  {
    exists i :: 0 <= i < |cs| && IsHandle(cs[i])
  }
}
