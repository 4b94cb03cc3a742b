/** Item construction and terminal placement of the React port
    (my-app/src/core/defaults.js).

    Rotation uses sine and cosine; it is a parameter `rotate(x, y, deg)`
    of the model, so what is stated here is which nodes move and which
    fields change, not where they land. */
module Defaults {
  import opened Common
  import opened Components
  import opened Topology

  /** A rotation of the point (x, y) by `deg` degrees about the origin. */
  type Rotation = (real, real, real) -> Point

  /** `defaultPropsForType(type)`. */
  function DefaultProps(kind: Kind): (p: Props)
    ensures p.sizePct == Some(100.0) && p.rot == Some(0.0)
    ensures kind.Battery? <==> p.V.Some?
    ensures kind.Battery? ==> p.V == Some(9.0) && p.Rint == Some(0.2)
    ensures kind.Resistor? ==> p.R == Some(100.0)
    ensures kind.Switch? <==> p.closed == Some(true)
    ensures kind.Bulb? ==> p.R == Some(30.0) && p.brightness == Some(0.0)
    ensures kind.IsMeter() <==> p.display == Some(Dash)
    ensures kind.Other? ==> p == NoProps.(sizePct := Some(100.0), rot := Some(0.0))
  {
    var base := NoProps.(sizePct := Some(100.0), rot := Some(0.0));
    match kind
    case Battery => base.(V := Some(9.0), Rint := Some(0.2))
    case Resistor => base.(R := Some(100.0))
    case Switch => base.(closed := Some(true))
    case Bulb => base.(R := Some(30.0), brightness := Some(0.0))
    case Voltmeter => base.(display := Some(Dash))
    case Ammeter => base.(display := Some(Dash))
    case Ohmmeter => base.(display := Some(Dash))
    case Other(_) => base
  }

  /** The rotated, scaled offset of a node from its item's position: the
      node's offsets times the item's size, turned by its rotation. */
  function Offset(lx: Option<real>, ly: Option<real>, sizePct: Option<real>, rot: Option<real>, rotate: Rotation): Point {
    var size := sizePct.GetOr(100.0) / 100.0;
    rotate(lx.GetOr(0.0) * size, ly.GetOr(0.0) * size, rot.GetOr(0.0))
  }

  /** A node placed at its item's position plus its offset; only `x` and
      `y` change. */
  function Place(n: Node, it: Item, rotate: Rotation): (r: Node)
    ensures r.(x := n.x, y := n.y) == n
  {
    var p := Offset(n.lx, n.ly, it.props.sizePct, it.props.rot, rotate);
    n.(x := it.x + p.x, y := it.y + p.y)
  }

  /** `recalcItemNodes(item, nodes)`: the item's nodes are placed again,
      every other node is kept, and the list keeps its length and order. */
  function RecalcItemNodes(it: Item, nodes: seq<Node>, rotate: Rotation): (r: seq<Node>)
    ensures |r| == |nodes|
    ensures forall i :: 0 <= i < |nodes| ==> r[i].(x := nodes[i].x, y := nodes[i].y) == nodes[i]
    ensures forall i :: 0 <= i < |nodes| && nodes[i].itemId != it.id ==> r[i] == nodes[i]
  {
    seq(|nodes|, i requires 0 <= i < |nodes| =>
      if nodes[i].itemId != it.id then nodes[i] else Place(nodes[i], it, rotate))
  }

  /** `new Map(items.map((it) => [it.id, it])).get(id)`: the last item
      with that id. */
  function ItemById(items: seq<Item>, id: Id): (r: Option<Item>)
    ensures r.Some? ==> r.value in items && r.value.id == id
    ensures r.None? ==> forall i :: 0 <= i < |items| ==> items[i].id != id
    decreases |items|
  {
    if items == [] then None
    else if items[|items| - 1].id == id then Some(items[|items| - 1])
    else ItemById(items[..|items| - 1], id)
  }

  /** `recalcAllNodes(items, nodes)`: a node whose item is missing, or that
      lacks `lx` or `ly`, is kept; every other node is placed by its item. */
  function RecalcAllNodes(items: seq<Item>, nodes: seq<Node>, rotate: Rotation): (r: seq<Node>)
    ensures |r| == |nodes|
    ensures forall i :: 0 <= i < |nodes| ==> r[i].(x := nodes[i].x, y := nodes[i].y) == nodes[i]
    ensures forall i :: 0 <= i < |nodes| && (ItemById(items, nodes[i].itemId).None? || nodes[i].lx.None? || nodes[i].ly.None?) ==>
              r[i] == nodes[i]
  {
    seq(|nodes|, i requires 0 <= i < |nodes| =>
      match ItemById(items, nodes[i].itemId)
      case None => nodes[i]
      case Some(it) => if nodes[i].lx.None? || nodes[i].ly.None? then nodes[i] else Place(nodes[i], it, rotate))
  }

  /** Both recalculations agree on the nodes of an item that is the last
      one with its id, when those nodes have offsets. */
  lemma RecalcAgree(items: seq<Item>, it: Item, nodes: seq<Node>, rotate: Rotation, i: int)
    requires ItemById(items, it.id) == Some(it)
    requires 0 <= i < |nodes| && nodes[i].itemId == it.id && nodes[i].lx.Some? && nodes[i].ly.Some?
    ensures RecalcAllNodes(items, nodes, rotate)[i] == RecalcItemNodes(it, nodes, rotate)[i]
  {
  }

  /** Recalculating all nodes twice is recalculating them once: a placed
      node keeps its item, pin and offsets, and placement reads nothing
      else of the node. */
  lemma RecalcAllIdempotent(items: seq<Item>, nodes: seq<Node>, rotate: Rotation)
    ensures RecalcAllNodes(items, RecalcAllNodes(items, nodes, rotate), rotate) == RecalcAllNodes(items, nodes, rotate)
  {
    var once := RecalcAllNodes(items, nodes, rotate);
    forall i | 0 <= i < |nodes| ensures RecalcAllNodes(items, once, rotate)[i] == once[i] {
      assert once[i].itemId == nodes[i].itemId && once[i].lx == nodes[i].lx && once[i].ly == nodes[i].ly;
    }
  }

  /** Half the spacing of an item's two terminals. */
  const Dx: real := 80.0

  /** `makeItemWithNodes(type, x, y, props)` with the fresh ids it draws:
      the item, and its terminals "a" on the left and "b" on the right,
      placed by the item's size and rotation. */
  function MakeItemWithNodes(kind: Kind, x: real, y: real, props: Props, id: Id, idA: Id, idB: Id,
                             rotate: Rotation): (r: (Item, seq<Node>))
    ensures r.0 == Item(id, kind, x, y, props, None, None)
    ensures |r.1| == 2
    ensures r.1[0].(x := x, y := y) == Node(idA, id, "a", Some(-Dx), Some(0.0), x, y)
    ensures r.1[1].(x := x, y := y) == Node(idB, id, "b", Some(Dx), Some(0.0), x, y)
  {
    var item := Item(id, kind, x, y, props, None, None);
    var nodes := [Node(idA, id, "a", Some(-Dx), Some(0.0), x, y), Node(idB, id, "b", Some(Dx), Some(0.0), x, y)];
    (item, RecalcItemNodes(item, nodes, rotate))
  }

  /** Placing a new item's terminals again moves nothing: placement reads
      only the offsets, never the old position. */
  lemma PlacementIdempotent(it: Item, nodes: seq<Node>, rotate: Rotation)
    ensures RecalcItemNodes(it, RecalcItemNodes(it, nodes, rotate), rotate) == RecalcItemNodes(it, nodes, rotate)
  {
    var once := RecalcItemNodes(it, nodes, rotate);
    forall i | 0 <= i < |nodes| ensures RecalcItemNodes(it, once, rotate)[i] == once[i] {
      if nodes[i].itemId == it.id {
        var p := Place(nodes[i], it, rotate);
        assert p.lx == nodes[i].lx && p.ly == nodes[i].ly;
      }
    }
  }

  /** A new item's terminals are exactly its pins "a" and "b", one each. */
  lemma NewItemPins(kind: Kind, x: real, y: real, props: Props, id: Id, idA: Id, idB: Id, rotate: Rotation)
    ensures var r := MakeItemWithNodes(kind, x, y, props, id, idA, idB, rotate);
            forall n :: n in r.1 ==> n.itemId == id && (n.name == "a" || n.name == "b")
  {
  }
}
