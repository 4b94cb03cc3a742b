/** Connectivity of the standalone script (app.js lines 1027-1082).

    `buildAdj` links the two ends of every wire, whether or not they are
    known nodes, and `computeNets` numbers the components reached from the
    nodes, in node order, from 1. The adjacency is the one the React port
    builds over a vertex list holding the node ids and then both ends of
    every wire, so that no wire is dropped; the search itself is the same
    stack loop (`Nets.Explore`). */
module ScriptNets {
  import opened Common
  import T = Topology
  import opened Nets
  import opened ScriptTopology

  function Vertex(id: Id): T.Node {
    T.Node(id, "", "", None, None, 0.0, 0.0)
  }

  /** The node ids, then every wire's `a` end, then every wire's `b` end. */
  function Vertices(nodes: seq<Node>, wires: seq<Wire>): (vs: seq<T.Node>)
    ensures |vs| == |nodes| + 2 * |wires|
    ensures forall i :: 0 <= i < |nodes| ==> vs[i].id == nodes[i].id
    ensures forall k :: 0 <= k < |wires| ==> vs[|nodes| + k].id == wires[k].a
    ensures forall k :: 0 <= k < |wires| ==> vs[|nodes| + |wires| + k].id == wires[k].b
  {
    seq(|nodes|, i requires 0 <= i < |nodes| => Vertex(nodes[i].id)) +
    seq(|wires|, k requires 0 <= k < |wires| => Vertex(wires[k].a)) +
    seq(|wires|, k requires 0 <= k < |wires| => Vertex(wires[k].b))
  }

  function Links(wires: seq<Wire>): (ls: seq<T.Wire>)
    ensures |ls| == |wires|
    ensures forall k :: 0 <= k < |wires| ==> ls[k] == T.Wire(wires[k].a, wires[k].b)
  {
    seq(|wires|, k requires 0 <= k < |wires| => T.Wire(wires[k].a, wires[k].b))
  }

  /** The adjacency `buildAdj` returns (lines 1027-1038); an id with no
      wire has an empty list where the script has no entry, which
      `computeNets` treats alike. */
  function Graph(nodes: seq<Node>, wires: seq<Wire>): Adjacency {
    AdjOf(Vertices(nodes, wires), Links(wires))
  }

  /** Every wire of the script is kept. */
  lemma AllKept(nodes: seq<Node>, wires: seq<Wire>)
    ensures forall k :: 0 <= k < |wires| ==> Kept(T.NodeIds(Vertices(nodes, wires)), Links(wires)[k])
  {
    var vs := Vertices(nodes, wires);
    forall k | 0 <= k < |wires| ensures Kept(T.NodeIds(vs), Links(wires)[k]) {
      assert vs[|nodes| + k].id == wires[k].a;
      assert vs[|nodes| + |wires| + k].id == wires[k].b;
    }
  }

  /** In the graph, `b` is a neighbour of `a` for every wire. */
  lemma WireIsEdge(nodes: seq<Node>, wires: seq<Wire>, k: int)
    requires 0 <= k < |wires|
    ensures wires[k].b in Nbrs(Graph(nodes, wires), wires[k].a)
    ensures wires[k].a in Nbrs(Graph(nodes, wires), wires[k].b)
  {
    var vs, ls := Vertices(nodes, wires), Links(wires);
    AllKept(nodes, wires);
    AdjOfSpec(vs, ls);
    assert Kept(T.NodeIds(vs), ls[k]) && T.Joins(ls[k], wires[k].a, wires[k].b);
    assert Wired(T.NodeIds(vs), ls, wires[k].a, wires[k].b);
    assert T.Joins(ls[k], wires[k].b, wires[k].a);
    assert Wired(T.NodeIds(vs), ls, wires[k].b, wires[k].a);
  }

  /** `netOfNode` numbers the ids of net `k` with `k + 1` and knows no
      other id. */
  ghost predicate Numbered(netOfNode: map<Id, nat>, nets: seq<seq<Id>>) {
    netOfNode.Keys == Union(nets) &&
    forall k, x :: 0 <= k < |nets| && x in nets[k] ==> x in netOfNode && netOfNode[x] == k + 1
  }

  /** Numbering a new net, disjoint from the earlier ones, keeps the
      earlier numbers. */
  lemma NumberedStep(netOfNode: map<Id, nat>, nets: seq<seq<Id>>, comp: seq<Id>, m: map<Id, nat>)
    requires Numbered(netOfNode, nets)
    requires Elems(comp) !! Union(nets)
    requires m.Keys == netOfNode.Keys + Elems(comp)
    requires forall x :: x in netOfNode ==> m[x] == netOfNode[x]
    requires forall x :: x in comp ==> m[x] == |nets| + 1
    ensures Numbered(m, nets + [comp])
  {
    UnionSnoc(nets, comp);
    var nets' := nets + [comp];
    forall k, x | 0 <= k < |nets'| && x in nets'[k] ensures x in m && m[x] == k + 1 {
      if k < |nets| {
        assert nets'[k] == nets[k];
        UnionSpec(nets);
      }
    }
  }

  /** The inner `netOfNode.set(v, netId)` calls for one component. */
  method NumberNet(netOfNode: map<Id, nat>, comp: seq<Id>, netId: nat) returns (m: map<Id, nat>)
    requires Elems(comp) !! netOfNode.Keys
    ensures m.Keys == netOfNode.Keys + Elems(comp)
    ensures forall x :: x in netOfNode ==> m[x] == netOfNode[x]
    ensures forall x :: x in comp ==> m[x] == netId
  {
    m := netOfNode;
    for j := 0 to |comp|
      invariant m.Keys == netOfNode.Keys + Elems(comp[..j])
      invariant forall x :: x in netOfNode ==> m[x] == netOfNode[x]
      invariant forall x :: x in comp[..j] ==> m[x] == netId
    {
      assert comp[..j + 1] == comp[..j] + [comp[j]];
      assert comp[j] in Elems(comp);
      m := m[comp[j] := netId];
    }
    assert comp[..|comp|] == comp;
  }

  /** The outer loop of `computeNets()` over an adjacency in which every
      node is a key: each node not yet seen seeds the next net. */
  method NumberNets(nodes: seq<Node>, adj: Adjacency)
    returns (netOfNode: map<Id, nat>, netCount: nat, ghost nets: seq<seq<Id>>)
    requires Symmetric(adj) && InKeys(adj)
    requires forall i :: 0 <= i < |nodes| ==> nodes[i].id in adj
    ensures netCount == |nets| <= |nodes|
    ensures Found(adj, nets, netOfNode.Keys)
    ensures Numbered(netOfNode, nets)
    ensures forall i :: 0 <= i < |nodes| ==> nodes[i].id in netOfNode
  {
    var seen: set<Id> := {};
    netOfNode, netCount, nets := map[], 0, [];
    for i := 0 to |nodes|
      invariant Found(adj, nets, seen)
      invariant seen == netOfNode.Keys
      invariant forall j :: 0 <= j < i ==> nodes[j].id in seen
      invariant netCount == |nets| <= i
      invariant Numbered(netOfNode, nets)
    {
      var id := nodes[i].id;
      if id in seen {
        continue;
      }
      netCount := netCount + 1;
      var comp, seen' := Explore(adj, id, seen);
      FoundStep(adj, nets, seen, comp, seen');
      var m := NumberNet(netOfNode, comp, netCount);
      NumberedStep(netOfNode, nets, comp, m);
      netOfNode, nets, seen := m, nets + [comp], seen';
    }
  }

  /** `computeNets()` (lines 1040-1067): every node gets a net number in
      `1 .. netCount`, the ends of a wire share a number, and the ids with
      number `k` are exactly the `k`-th net, a connected component of the
      wire graph; the nets are pairwise disjoint. */
  method ComputeNets(nodes: seq<Node>, wires: seq<Wire>)
    returns (netOfNode: map<Id, nat>, netCount: nat, ghost nets: seq<seq<Id>>)
    ensures netCount == |nets| <= |nodes|
    ensures netCount == 0 <==> |nodes| == 0
    ensures forall k :: 0 <= k < |nets| ==> IsNet(Graph(nodes, wires), nets[k])
    ensures forall k, l :: 0 <= k < l < |nets| ==> Elems(nets[k]) !! Elems(nets[l])
    ensures Numbered(netOfNode, nets)
    ensures forall i :: 0 <= i < |nodes| ==> nodes[i].id in netOfNode && 1 <= netOfNode[nodes[i].id] <= netCount
    ensures forall id :: id in netOfNode ==> 1 <= netOfNode[id] <= netCount
    ensures forall k :: 0 <= k < |wires| && wires[k].a in netOfNode ==>
              wires[k].b in netOfNode && netOfNode[wires[k].b] == netOfNode[wires[k].a]
  {
    var vs := Vertices(nodes, wires);
    var adj := BuildAdj(vs, Links(wires));
    NodesAreKeys(nodes, wires);
    AdjOfSymmetric(vs, Links(wires));
    netOfNode, netCount, nets := NumberNets(nodes, adj);
    NumbersInRange(netOfNode, nets);
    WiresShareNumber(nodes, wires, netOfNode, nets);
    if |nodes| > 0 {
      assert nodes[0].id in netOfNode;
    }
  }

  lemma NodesAreKeys(nodes: seq<Node>, wires: seq<Wire>)
    ensures forall i :: 0 <= i < |nodes| ==> nodes[i].id in Graph(nodes, wires)
  {
    var vs := Vertices(nodes, wires);
    AdjOfSpec(vs, Links(wires));
    forall i | 0 <= i < |nodes| ensures nodes[i].id in T.NodeIds(vs) {
      assert vs[i].id == nodes[i].id;
    }
  }

  lemma NumbersInRange(netOfNode: map<Id, nat>, nets: seq<seq<Id>>)
    requires Numbered(netOfNode, nets)
    ensures forall id :: id in netOfNode ==> 1 <= netOfNode[id] <= |nets|
  {
    UnionSpec(nets);
    forall id | id in netOfNode ensures 1 <= netOfNode[id] <= |nets| {
      var k :| 0 <= k < |nets| && id in nets[k];
    }
  }

  /** The two ends of a wire lie in the same net, so they share a number. */
  lemma WiresShareNumber(nodes: seq<Node>, wires: seq<Wire>, netOfNode: map<Id, nat>, nets: seq<seq<Id>>)
    requires Numbered(netOfNode, nets)
    requires forall k :: 0 <= k < |nets| ==> IsNet(Graph(nodes, wires), nets[k])
    ensures forall k :: 0 <= k < |wires| && wires[k].a in netOfNode ==>
              wires[k].b in netOfNode && netOfNode[wires[k].b] == netOfNode[wires[k].a]
  {
    UnionSpec(nets);
    forall k | 0 <= k < |wires| && wires[k].a in netOfNode
      ensures wires[k].b in netOfNode && netOfNode[wires[k].b] == netOfNode[wires[k].a]
    {
      var j :| 0 <= j < |nets| && wires[k].a in nets[j];
      var p :| 0 <= p < |nets[j]| && nets[j][p] == wires[k].a;
      WireIsEdge(nodes, wires, k);
      assert wires[k].b in nets[j];
    }
  }

  /** `getNetForCompTerminal(netOfNode, itemId, side)` (lines 1069-1073):
      the number of the first terminal on that side of the item, `None` when
      there is no such terminal or it has no number. */
  function NetOfTerminal(nodes: seq<Node>, netOfNode: map<Id, nat>, itemId: Id, side: Side): (r: Option<nat>)
    ensures r.Some? ==> exists i :: 0 <= i < |nodes| && IsTerminal(nodes[i], itemId, side) &&
                                    nodes[i].id in netOfNode && netOfNode[nodes[i].id] == r.value
    ensures (forall i :: 0 <= i < |nodes| ==> !IsTerminal(nodes[i], itemId, side)) ==> r.None?
  {
    match FindTerminal(nodes, itemId, side)
    case None => None
    case Some(i) => if nodes[i].id in netOfNode then Some(netOfNode[nodes[i].id]) else None
  }
}
