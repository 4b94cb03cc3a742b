/** Terminals and wires of the standalone script (app.js).

    A node is either the terminal of an item ("comp", with the item's id and
    its side "L" or "R") or a free point of the drawing ("free"). A wire
    has an id of its own and joins two node ids `a` and `b`. */
module ScriptTopology {
  import opened Common

  /** The side of an item a terminal sits on: "L" (minus) or "R" (plus). */
  datatype Side = L | R

  datatype NodeKind =
    | Comp(itemId: Id, side: Side)
    | Free(x: real, y: real)

  datatype Node = Node(id: Id, kind: NodeKind)

  datatype Wire = Wire(id: Id, a: Id, b: Id)

  /** `n.kind === "comp" && n.itemId === itemId && n.side === side`. */
  predicate IsTerminal(n: Node, itemId: Id, side: Side) {
    n.kind == Comp(itemId, side)
  }

  /** `nodes.find(...)` for the terminal on `side` of `itemId`: the index
      of the first match. */
  function FindTerminal(nodes: seq<Node>, itemId: Id, side: Side): (r: Option<nat>)
    ensures r.Some? ==> r.value < |nodes| && IsTerminal(nodes[r.value], itemId, side) &&
                        forall j :: 0 <= j < r.value ==> !IsTerminal(nodes[j], itemId, side)
    ensures r.None? ==> forall j :: 0 <= j < |nodes| ==> !IsTerminal(nodes[j], itemId, side)
    decreases |nodes|
  {
    if nodes == [] then None
    else if IsTerminal(nodes[0], itemId, side) then Some(0)
    else match FindTerminal(nodes[1..], itemId, side)
      case None => None
      case Some(j) => Some(j + 1)
  }

  /** The ids of the nodes; the React model's `Topology.NodeIds` over its
      own node type. */
  function Ids(nodes: seq<Node>): (ids: set<Id>)
    ensures forall i :: 0 <= i < |nodes| ==> nodes[i].id in ids
    ensures forall id :: id in ids ==> exists i :: 0 <= i < |nodes| && nodes[i].id == id
  {
    set i | 0 <= i < |nodes| :: nodes[i].id
  }
}
