/** Terminals ("nodes") and wires of the React port.

    A node belongs to an item (`itemId`), carries a pin `name` ("a" or "b"),
    optional local offsets `lx`/`ly` relative to the item, and world
    coordinates `x`/`y`. A wire joins two node ids. */
module Topology {
  import opened Common

  datatype Node = Node(
    id: Id,
    itemId: Id,
    name: string,
    lx: Option<real>,
    ly: Option<real>,
    x: real,
    y: real)

  datatype Wire = Wire(aNodeId: Id, bNodeId: Id)

  /** The camera: pan offset `x`/`y` and zoom `z`. */
  datatype Cam = Cam(x: real, y: real, z: real)

  /** The ids of the nodes. `ScriptTopology.Ids` is the same function
      over the script's own node type. */
  function NodeIds(nodes: seq<Node>): (ids: set<Id>)
    ensures forall i :: 0 <= i < |nodes| ==> nodes[i].id in ids
    ensures forall id :: id in ids ==> exists i :: 0 <= i < |nodes| && nodes[i].id == id
  {
    set i | 0 <= i < |nodes| :: nodes[i].id
  }

  /** The wire joins `a` and `b` in either orientation. */
  predicate Joins(w: Wire, a: Id, b: Id) {
    (w.aNodeId == a && w.bNodeId == b) || (w.aNodeId == b && w.bNodeId == a)
  }
}
