/** Connectivity of the React port (my-app/src/core/nets.js).

    `buildAdj` gives every node id an adjacency list and, for each wire whose
    two endpoints are both known nodes, appends each endpoint to the other's
    list. `computeNets` splits the node ids into connected components ("nets")
    with a depth-first search driven by an explicit stack and a `seen` set. */
module Nets {
  import opened Common
  import opened Topology

  type Adjacency = map<Id, seq<Id>>

  function Elems(s: seq<Id>): set<Id> {
    set x | x in s
  }

  predicate Distinct(s: seq<Id>) {
    forall i, j :: 0 <= i < j < |s| ==> s[i] != s[j]
  }

  /** A wire is kept when both endpoints are ids of known nodes. */
  predicate Kept(ids: set<Id>, w: Wire) {
    w.aNodeId in ids && w.bNodeId in ids
  }

  /** `for (const n of nodes) adj.set(n.id, [])`. */
  function EmptyAdj(nodes: seq<Node>): Adjacency {
    map id | id in NodeIds(nodes) :: []
  }

  /** The effect of one wire on the adjacency (lines 6-8). */
  function Link(adj: Adjacency, w: Wire): Adjacency {
    if w.aNodeId in adj && w.bNodeId in adj then
      var adj1 := adj[w.aNodeId := adj[w.aNodeId] + [w.bNodeId]];
      adj1[w.bNodeId := adj1[w.bNodeId] + [w.aNodeId]]
    else
      adj
  }

  /** The adjacency `buildAdj` returns: the wires applied in order. */
  function AdjOf(nodes: seq<Node>, wires: seq<Wire>): Adjacency
    decreases |wires|
  {
    if wires == [] then EmptyAdj(nodes)
    else Link(AdjOf(nodes, wires[..|wires| - 1]), wires[|wires| - 1])
  }


  /** `adj.get(u) || []`. */
  function Nbrs(adj: Adjacency, u: Id): seq<Id> {
    if u in adj then adj[u] else []
  }

  /** Some kept wire among `wires` joins `u` and `v`. */
  ghost predicate Wired(ids: set<Id>, wires: seq<Wire>, u: Id, v: Id) {
    exists j :: 0 <= j < |wires| && Kept(ids, wires[j]) && Joins(wires[j], u, v)
  }

  /** `v` is in `u`'s list. Symmetry is stated over this wrapper so that
      the solver applies it only where a proof names an edge. */
  ghost predicate Edge(adj: Adjacency, u: Id, v: Id) {
    v in Nbrs(adj, u)
  }

  ghost predicate Symmetric(adj: Adjacency) {
    forall u, v :: Edge(adj, u, v) ==> Edge(adj, v, u)
  }

  /** Adjacency lists only mention keys. */
  ghost predicate InKeys(adj: Adjacency) {
    forall u, v :: v in Nbrs(adj, u) ==> v in adj
  }

  /** One wire adds `v` to `u`'s list exactly when it is kept and joins them. */
  lemma LinkSpec(adj: Adjacency, w: Wire)
    ensures Link(adj, w).Keys == adj.Keys
    ensures forall u, v :: v in Nbrs(Link(adj, w), u) <==>
              v in Nbrs(adj, u) || (Kept(adj.Keys, w) && Joins(w, u, v))
  {
  }

  /** Every node id has an entry (initially empty), no other key exists, and
      `v` is in `u`'s list exactly when some kept wire joins them: a wire
      with an unknown endpoint contributes nothing. */
  lemma {:induction false} AdjOfSpec(nodes: seq<Node>, wires: seq<Wire>)
    ensures AdjOf(nodes, wires).Keys == NodeIds(nodes)
    ensures forall u, v :: v in Nbrs(AdjOf(nodes, wires), u) <==> Wired(NodeIds(nodes), wires, u, v)
    decreases |wires|
  {
    var ids := NodeIds(nodes);
    if wires != [] {
      var pre := wires[..|wires| - 1];
      var w := wires[|wires| - 1];
      AdjOfSpec(nodes, pre);
      var a0 := AdjOf(nodes, pre);
      assert AdjOf(nodes, wires) == Link(a0, w);
      assert wires == pre + [w];
      LinkSpec(a0, w);
      forall u, v ensures v in Nbrs(Link(a0, w), u) <==> Wired(ids, pre + [w], u, v) {
        WiredSnoc(ids, pre, w, u, v);
      }
    }
  }

  lemma WiredSnoc(ids: set<Id>, pre: seq<Wire>, w: Wire, u: Id, v: Id)
    ensures Wired(ids, pre + [w], u, v) <==> Wired(ids, pre, u, v) || (Kept(ids, w) && Joins(w, u, v))
  {
    var ws := pre + [w];
    if Wired(ids, ws, u, v) {
      var j :| 0 <= j < |ws| && Kept(ids, ws[j]) && Joins(ws[j], u, v);
      if j < |pre| {
        assert ws[j] == pre[j];
      }
    }
    if Wired(ids, pre, u, v) {
      var j :| 0 <= j < |pre| && Kept(ids, pre[j]) && Joins(pre[j], u, v);
      assert ws[j] == pre[j];
    }
    if Kept(ids, w) && Joins(w, u, v) {
      assert ws[|pre|] == w;
    }
  }

  /** The adjacency is symmetric (a kept wire a–b puts b in a's list and a
      in b's) and only mentions node ids. */
  lemma AdjOfSymmetric(nodes: seq<Node>, wires: seq<Wire>)
    ensures Symmetric(AdjOf(nodes, wires))
    ensures InKeys(AdjOf(nodes, wires))
  {
    AdjOfSpec(nodes, wires);
    var adj := AdjOf(nodes, wires);
    var ids := NodeIds(nodes);
    forall u, v | Edge(adj, u, v)
      ensures Edge(adj, v, u) && v in adj
    {
      var j :| 0 <= j < |wires| && Kept(ids, wires[j]) && Joins(wires[j], u, v);
      assert Joins(wires[j], v, u);
    }
  }

  /** `buildAdj` (lines 2-11). */
  method BuildAdj(nodes: seq<Node>, wires: seq<Wire>) returns (adj: Adjacency)
    ensures adj == AdjOf(nodes, wires)
  {
    adj := map[];
    for i := 0 to |nodes|
      invariant adj.Keys == NodeIds(nodes[..i])
      invariant forall id :: id in adj ==> adj[id] == []
    {
      assert nodes[..i + 1] == nodes[..i] + [nodes[i]];
      adj := adj[nodes[i].id := []];
    }
    assert nodes[..|nodes|] == nodes;
    assert adj == EmptyAdj(nodes);
    for j := 0 to |wires|
      invariant adj == AdjOf(nodes, wires[..j])
    {
      assert wires[..j + 1][..j] == wires[..j];
      var w := wires[j];
      if !(w.aNodeId in adj) || !(w.bNodeId in adj) {
        continue;
      }
      adj := adj[w.aNodeId := adj[w.aNodeId] + [w.bNodeId]];
      adj := adj[w.bNodeId := adj[w.bNodeId] + [w.aNodeId]];
    }
    assert wires[..|wires|] == wires;
  }

  lemma ElemsConcat(a: seq<Id>, b: seq<Id>)
    ensures Elems(a + b) == Elems(a) + Elems(b)
  {
    assert forall x :: x in a + b <==> x in a || x in b;
  }

  /** No edge leaves `s`. */
  ghost predicate ClosedSet(adj: Adjacency, s: set<Id>) {
    forall u, v :: u in s && v in Nbrs(adj, u) ==> v in s
  }

  /** The inner `for` loop of `computeNets` (lines 28-33): every neighbour
      not yet seen is marked seen and pushed, once, in list order. */
  method PushUnseen(nbrs: seq<Id>, seenIn: set<Id>, stackIn: seq<Id>) returns (seen: set<Id>, stack: seq<Id>)
    ensures seen == seenIn + Elems(nbrs)
    ensures |stack| >= |stackIn| && stack == stackIn + stack[|stackIn|..]
    ensures Pushed(nbrs, seenIn, stack[|stackIn|..])
    ensures seen == seenIn + Elems(stack[|stackIn|..])
  {
    seen, stack := seenIn, stackIn;
    ghost var added: seq<Id> := [];
    for j := 0 to |nbrs|
      invariant seen == seenIn + Elems(nbrs[..j])
      invariant stack == stackIn + added
      invariant Pushed(nbrs[..j], seenIn, added)
      invariant seen == seenIn + Elems(added)
    {
      assert nbrs[..j + 1] == nbrs[..j] + [nbrs[j]];
      var nx := nbrs[j];
      if nx !in seen {
        seen := seen + {nx};
        stack := stack + [nx];
        added := added + [nx];
      }
    }
    assert nbrs[..|nbrs|] == nbrs;
    assert stack[|stackIn|..] == added;
  }

  /** `added` lists, once each, ids of `nbrs` that were not in `seen`. */
  ghost predicate Pushed(nbrs: seq<Id>, seen: set<Id>, added: seq<Id>) {
    Distinct(added) &&
    Elems(nbrs) <= seen + Elems(added) &&
    (forall t :: 0 <= t < |added| ==> added[t] in nbrs && added[t] !in seen)
  }

  /** `n` copies of `x`. */
  function Copies(x: nat, n: nat): (r: seq<nat>)
    ensures |r| == n
    ensures forall i :: 0 <= i < n ==> r[i] == x
  {
    seq(n, _ => x)
  }

  /** `s[p]` is in the list of some earlier member of `s`. */
  ghost predicate HasEarlierNeighbour(adj: Adjacency, s: seq<Id>, p: int)
    requires 0 <= p < |s|
  {
    exists q :: 0 <= q < p && s[p] in Nbrs(adj, s[q])
  }

  /** Bookkeeping of the search for one component: `seen` is exactly the
      earlier seen ids plus the popped ids `comp` and the pending ids
      `stack`, no id occurs twice among these, and none was seen before. */
  ghost predicate Cover(keys: set<Id>, seenIn: set<Id>, comp: seq<Id>, stack: seq<Id>, seen: set<Id>) {
    seen == seenIn + Elems(comp) + Elems(stack) &&
    seen <= keys &&
    Distinct(comp) && Distinct(stack) && Elems(comp) !! Elems(stack) &&
    Elems(comp) !! seenIn && Elems(stack) !! seenIn
  }

  /** Every neighbour of a popped id has been seen. */
  ghost predicate Reached(adj: Adjacency, comp: seq<Id>, seen: set<Id>) {
    forall p, v :: 0 <= p < |comp| && v in Nbrs(adj, comp[p]) ==> v in seen
  }

  /** The search tree: the seed comes first, and the ghost `cp` and `sp`
      give, for each popped and pending id, the index in `comp` of the id
      whose list brought it in. */
  ghost predicate Tree(adj: Adjacency, seed: Id, comp: seq<Id>, stack: seq<Id>, cp: seq<nat>, sp: seq<nat>) {
    (comp == [] ==> stack == [seed]) &&
    (comp != [] ==> comp[0] == seed) &&
    |cp| == |comp| && |sp| == |stack| &&
    (forall p {:trigger cp[p]} :: 1 <= p < |comp| ==> cp[p] < p && comp[p] in Nbrs(adj, comp[cp[p]])) &&
    (comp != [] ==> forall t {:trigger sp[t]} :: 0 <= t < |stack| ==> sp[t] < |comp| && stack[t] in Nbrs(adj, comp[sp[t]]))
  }

  lemma DistinctConcat(a: seq<Id>, b: seq<Id>)
    requires Distinct(a) && Distinct(b) && Elems(a) !! Elems(b)
    ensures Distinct(a + b)
  {
    forall i, j | 0 <= i < j < |a + b|
      ensures (a + b)[i] != (a + b)[j]
    {
      if i < |a| && j >= |a| {
        assert (a + b)[i] in Elems(a) && (a + b)[j] in Elems(b);
      }
    }
  }

  /** Popping the top id and pushing the unseen ids `added` of its list
      keeps the bookkeeping. */
  lemma CoverStep(keys: set<Id>, seenIn: set<Id>, comp: seq<Id>, stack: seq<Id>, seen: set<Id>,
                  nbrs: seq<Id>, added: seq<Id>)
    requires Cover(keys, seenIn, comp, stack, seen)
    requires |stack| > 0
    requires Pushed(nbrs, seen, added) && Elems(nbrs) <= keys
    ensures Cover(keys, seenIn, comp + [stack[|stack| - 1]], stack[..|stack| - 1] + added, seen + Elems(added))
  {
    var cur := stack[|stack| - 1];
    var rest := stack[..|stack| - 1];
    assert stack == rest + [cur];
    ElemsConcat(rest, [cur]);
    ElemsConcat(comp, [cur]);
    ElemsConcat(rest, added);
    assert Elems(added) <= Elems(nbrs) by {
      forall x | x in Elems(added) ensures x in Elems(nbrs) {
        var t :| 0 <= t < |added| && added[t] == x;
      }
    }
    assert Elems(added) !! seen by {
      forall x | x in Elems(added) ensures x !in seen {
        var t :| 0 <= t < |added| && added[t] == x;
      }
    }
    assert Distinct(rest);
    DistinctConcat(rest, added);
    assert cur !in Elems(comp);
    DistinctConcat(comp, [cur]);
  }

  /** Popping `cur` once its whole list has been seen keeps `Reached`. */
  lemma ReachStep(adj: Adjacency, comp: seq<Id>, cur: Id, seen: set<Id>, seen': set<Id>)
    requires Reached(adj, comp, seen)
    requires seen <= seen' && Elems(Nbrs(adj, cur)) <= seen'
    ensures Reached(adj, comp + [cur], seen')
  {
    forall p, v | 0 <= p < |comp + [cur]| && v in Nbrs(adj, (comp + [cur])[p])
      ensures v in seen'
    {
      if p == |comp| {
        assert v in Elems(Nbrs(adj, cur));
      }
    }
  }

  /** Popping the top id and pushing ids of its list keeps the tree. */
  lemma TreeStep(adj: Adjacency, seed: Id, comp: seq<Id>, stack: seq<Id>, cp: seq<nat>, sp: seq<nat>, added: seq<Id>)
    requires Tree(adj, seed, comp, stack, cp, sp)
    requires |stack| > 0
    requires forall t :: 0 <= t < |added| ==> added[t] in Nbrs(adj, stack[|stack| - 1])
    ensures Tree(adj, seed, comp + [stack[|stack| - 1]], stack[..|stack| - 1] + added,
                 cp + [sp[|stack| - 1]], sp[..|stack| - 1] + Copies(|comp|, |added|))
  {
    var cur := stack[|stack| - 1];
    var comp' := comp + [cur];
    var stack' := stack[..|stack| - 1] + added;
    var cp' := cp + [sp[|stack| - 1]];
    var sp' := sp[..|stack| - 1] + Copies(|comp|, |added|);
    forall p | 1 <= p < |comp'|
      ensures cp'[p] < p && comp'[p] in Nbrs(adj, comp'[cp'[p]])
    {
      if p < |comp| {
        assert cp'[p] == cp[p];
      }
    }
    var k := |stack| - 1;
    var copies := Copies(|comp|, |added|);
    assert |sp'| == |stack'| && |cp'| == |comp'|;
    if comp == [] {
      assert stack == [seed];
      assert comp' == [seed];
    } else {
      assert comp'[0] == comp[0];
    }
    forall t | 0 <= t < |stack'|
      ensures sp'[t] < |comp'| && stack'[t] in Nbrs(adj, comp'[sp'[t]])
    {
      if t < k {
        assert sp'[t] == sp[t];
        assert stack'[t] == stack[t];
        assert comp'[sp[t]] == comp[sp[t]];
      } else {
        assert stack'[t] == added[t - k];
        assert sp'[t] == copies[t - k];
      }
    }
  }

  lemma NbrsInKeys(adj: Adjacency, u: Id)
    requires InKeys(adj)
    ensures Elems(Nbrs(adj, u)) <= adj.Keys
  {
  }

  /** `keys - seen` shrinks when `seen` grows inside `keys`. */
  lemma Shrinks(keys: set<Id>, a: set<Id>, b: set<Id>)
    requires a < b <= keys
    ensures |keys - b| < |keys - a|
  {
    var d := b - a;
    assert d != {};
    var x :| x in d;
    assert keys - a == (keys - b) + d;
    assert (keys - b) * d == {};
    assert |d| >= 1;
  }

  /** Once the stack is empty the component is closed under adjacency,
      since a neighbour seen earlier would have reached it before, and each
      id after the seed hangs off an earlier one. */
  lemma ExploreDone(adj: Adjacency, seed: Id, seenIn: set<Id>, comp: seq<Id>, seen: set<Id>, cp: seq<nat>, sp: seq<nat>)
    requires Symmetric(adj) && ClosedSet(adj, seenIn)
    requires Cover(adj.Keys, seenIn, comp, [], seen)
    requires Reached(adj, comp, seen)
    requires Tree(adj, seed, comp, [], cp, sp)
    ensures forall p, v :: 0 <= p < |comp| && v in Nbrs(adj, comp[p]) ==> v in comp
    ensures forall p :: 1 <= p < |comp| ==> HasEarlierNeighbour(adj, comp, p)
  {
    forall p, v | 0 <= p < |comp| && v in Nbrs(adj, comp[p])
      ensures v in comp
    {
      assert comp[p] in Elems(comp);
      if v in seenIn {
        assert Edge(adj, comp[p], v);
      }
      assert v in Elems(comp);
    }
    forall p | 1 <= p < |comp|
      ensures HasEarlierNeighbour(adj, comp, p)
    {
      var q := cp[p];
      assert comp[p] in Nbrs(adj, comp[q]);
    }
  }

  /** The stack loop of `computeNets` (lines 21-34) for one seed: the
      component it collects starts with the seed, holds no id twice, avoids
      every id seen before, is closed under adjacency, and each id after the
      first is adjacent to an earlier one. */
  method Explore(adj: Adjacency, seed: Id, seenIn: set<Id>) returns (comp: seq<Id>, seen: set<Id>)
    requires Symmetric(adj) && InKeys(adj)
    requires seed in adj && seed !in seenIn
    requires seenIn <= adj.Keys
    requires ClosedSet(adj, seenIn)
    ensures seen == seenIn + Elems(comp)
    ensures seen <= adj.Keys
    ensures |comp| > 0 && comp[0] == seed
    ensures Distinct(comp)
    ensures Elems(comp) !! seenIn
    ensures forall p, v :: 0 <= p < |comp| && v in Nbrs(adj, comp[p]) ==> v in comp
    ensures forall p :: 1 <= p < |comp| ==> HasEarlierNeighbour(adj, comp, p)
  {
    var stack := [seed];
    comp := [];
    seen := seenIn + {seed};
    ghost var sp: seq<nat> := [0];
    ghost var cp: seq<nat> := [];
    while |stack| > 0
      invariant Cover(adj.Keys, seenIn, comp, stack, seen)
      invariant Reached(adj, comp, seen)
      invariant Tree(adj, seed, comp, stack, cp, sp)
      decreases |adj.Keys - seen|, |stack|
    {
      comp, stack, seen, cp, sp := Pop(adj, seed, seenIn, comp, stack, seen, cp, sp);
    }
    assert stack == [];
    ExploreDone(adj, seed, seenIn, comp, seen, cp, sp);
  }

  /** One pass of the search loop: pop the top id, append it to the
      component and push its unseen neighbours. */
  method Pop(adj: Adjacency, seed: Id, seenIn: set<Id>, comp: seq<Id>, stack: seq<Id>, seen: set<Id>,
             ghost cp: seq<nat>, ghost sp: seq<nat>)
    returns (comp': seq<Id>, stack': seq<Id>, seen': set<Id>, ghost cp': seq<nat>, ghost sp': seq<nat>)
    requires InKeys(adj) && |stack| > 0
    requires Cover(adj.Keys, seenIn, comp, stack, seen)
    requires Reached(adj, comp, seen)
    requires Tree(adj, seed, comp, stack, cp, sp)
    ensures Cover(adj.Keys, seenIn, comp', stack', seen')
    ensures Reached(adj, comp', seen')
    ensures Tree(adj, seed, comp', stack', cp', sp')
    ensures |adj.Keys - seen'| < |adj.Keys - seen| || (seen' == seen && |stack'| < |stack|)
  {
    var cur := stack[|stack| - 1];
    var rest := stack[..|stack| - 1];
    comp' := comp + [cur];
    seen', stack' := PushUnseen(Nbrs(adj, cur), seen, rest);
    ghost var added := stack'[|rest|..];
    assert stack' == rest + added;
    NbrsInKeys(adj, cur);
    CoverStep(adj.Keys, seenIn, comp, stack, seen, Nbrs(adj, cur), added);
    ReachStep(adj, comp, cur, seen, seen');
    TreeStep(adj, seed, comp, stack, cp, sp, added);
    cp' := cp + [sp[|stack| - 1]];
    sp' := sp[..|stack| - 1] + Copies(|comp|, |added|);
    if added != [] {
      assert added[0] in seen' - seen;
      Shrinks(adj.Keys, seen, seen');
    }
  }

  /** Every id that occurs in some net. */
  function Union(nets: seq<seq<Id>>): set<Id>
    decreases |nets|
  {
    if nets == [] then {} else Union(nets[..|nets| - 1]) + Elems(nets[|nets| - 1])
  }

  lemma {:induction false} UnionSpec(nets: seq<seq<Id>>)
    ensures forall x :: x in Union(nets) <==> exists k :: 0 <= k < |nets| && x in nets[k]
    decreases |nets|
  {
    if nets != [] {
      var pre := nets[..|nets| - 1];
      UnionSpec(pre);
      forall x ensures x in Union(nets) <==> exists k :: 0 <= k < |nets| && x in nets[k] {
        if x in Union(pre) {
          var k :| 0 <= k < |pre| && x in pre[k];
          assert nets[k] == pre[k];
        }
        if exists k :: 0 <= k < |nets| && x in nets[k] {
          var k :| 0 <= k < |nets| && x in nets[k];
          if k < |pre| {
            assert pre[k] == nets[k];
          }
        }
      }
    }
  }

  lemma InElems(s: seq<Id>, x: Id)
    requires x in s
    ensures x in Elems(s)
  {
  }

  /** An id of one net is in the union. */
  lemma InUnion(nets: seq<seq<Id>>, k: nat, x: Id)
    requires k < |nets| && x in nets[k]
    ensures x in Union(nets)
  {
    UnionSpec(nets);
  }

  /** An id of the union lies in some net. */
  lemma NetOf(nets: seq<seq<Id>>, x: Id) returns (l: nat)
    requires x in Union(nets)
    ensures l < |nets| && x in nets[l]
  {
    UnionSpec(nets);
    l :| 0 <= l < |nets| && x in nets[l];
  }

  lemma UnionSnoc(nets: seq<seq<Id>>, comp: seq<Id>)
    ensures Union(nets + [comp]) == Union(nets) + Elems(comp)
  {
    assert (nets + [comp])[..|nets|] == nets;
  }

  /** A net as `computeNets` produces it: non-empty, no id twice, closed
      under adjacency, and every id after the first adjacent to an earlier
      one (so the net is connected). */
  ghost predicate IsNet(adj: Adjacency, s: seq<Id>) {
    s != [] && Distinct(s) &&
    (forall p, v :: 0 <= p < |s| && v in Nbrs(adj, s[p]) ==> v in s) &&
    (forall p :: 1 <= p < |s| ==> HasEarlierNeighbour(adj, s, p))
  }

  /** The nets found so far: `seen` is exactly their ids, a set no edge
      leaves, and they are pairwise disjoint. */
  ghost predicate Found(adj: Adjacency, nets: seq<seq<Id>>, seen: set<Id>) {
    seen == Union(nets) && seen <= adj.Keys && ClosedSet(adj, seen) &&
    (forall k :: 0 <= k < |nets| ==> IsNet(adj, nets[k])) &&
    (forall k, l :: 0 <= k < l < |nets| ==> Elems(nets[k]) !! Elems(nets[l]))
  }

  /** The seeds: net `k` starts with node `seeds[k]`, seeds increase, and
      every node before a net's seed lies in an earlier net. */
  ghost predicate Seeded(nodes: seq<Node>, nets: seq<seq<Id>>, seeds: seq<nat>) {
    |seeds| == |nets| &&
    (forall k :: 0 <= k < |nets| ==> seeds[k] < |nodes| && nets[k] != [] && nets[k][0] == nodes[seeds[k]].id) &&
    (forall k, l :: 0 <= k < l < |nets| ==> seeds[k] < seeds[l]) &&
    (forall k, l, j :: 0 <= k <= l < |nets| && 0 <= j < seeds[k] ==> nodes[j].id !in nets[l])
  }

  lemma FoundStep(adj: Adjacency, nets: seq<seq<Id>>, seen: set<Id>, comp: seq<Id>, seen': set<Id>)
    requires Found(adj, nets, seen)
    requires Symmetric(adj)
    requires seen' == seen + Elems(comp) && seen' <= adj.Keys
    requires Elems(comp) !! seen
    requires IsNet(adj, comp)
    ensures Found(adj, nets + [comp], seen')
  {
    var nets' := nets + [comp];
    UnionSnoc(nets, comp);
    UnionSpec(nets);
    forall k, l | 0 <= k < l < |nets'|
      ensures Elems(nets'[k]) !! Elems(nets'[l])
    {
      if l == |nets| {
        forall x | x in Elems(nets[k]) ensures x in seen {
        }
      }
    }
    forall u, v | u in seen' && v in Nbrs(adj, u)
      ensures v in seen'
    {
      if u in Elems(comp) {
        var p :| 0 <= p < |comp| && comp[p] == u;
      }
    }
    assert forall k :: 0 <= k < |nets| ==> nets'[k] == nets[k];
  }

  lemma SeededStep(nodes: seq<Node>, nets: seq<seq<Id>>, seeds: seq<nat>, seen: set<Id>, i: nat, comp: seq<Id>)
    requires Seeded(nodes, nets, seeds)
    requires seen == Union(nets)
    requires i < |nodes|
    requires forall k :: 0 <= k < |seeds| ==> seeds[k] < i
    requires forall j :: 0 <= j < i ==> nodes[j].id in seen
    requires comp != [] && comp[0] == nodes[i].id && Elems(comp) !! seen
    ensures Seeded(nodes, nets + [comp], seeds + [i])
  {
    var nets', seeds' := nets + [comp], seeds + [i];
    forall k, l, j | 0 <= k <= l < |nets'| && 0 <= j < seeds'[k]
      ensures nodes[j].id !in nets'[l]
    {
      if l == |nets| {
        assert j < i;
        assert nodes[j].id !in Elems(comp);
      } else {
        assert seeds'[k] == seeds[k] && nets'[l] == nets[l];
      }
    }
    forall k, l | 0 <= k < l < |nets'|
      ensures seeds'[k] < seeds'[l]
    {
      if l < |nets| {
        assert seeds'[k] == seeds[k] && seeds'[l] == seeds[l];
      }
    }
    forall k | 0 <= k < |nets'|
      ensures seeds'[k] < |nodes| && nets'[k] != [] && nets'[k][0] == nodes[seeds'[k]].id
    {
      if k < |nets| {
        assert seeds'[k] == seeds[k] && nets'[k] == nets[k];
      }
    }
  }

  /** `computeNets` (lines 14-39): the nets partition the node ids, each is
      a connected component of the wire graph, and they come in the order
      of their first node; `seeds` records, for each net, that node. */
  method ComputeNets(nodes: seq<Node>, wires: seq<Wire>) returns (nets: seq<seq<Id>>, ghost seeds: seq<nat>)
    ensures Union(nets) == NodeIds(nodes)
    ensures forall k :: 0 <= k < |nets| ==> IsNet(AdjOf(nodes, wires), nets[k])
    ensures forall k, l :: 0 <= k < l < |nets| ==> Elems(nets[k]) !! Elems(nets[l])
    ensures Seeded(nodes, nets, seeds)
    ensures |nets| <= |nodes|
  {
    var adj := BuildAdj(nodes, wires);
    AdjOfSpec(nodes, wires);
    AdjOfSymmetric(nodes, wires);
    var seen: set<Id> := {};
    nets, seeds := [], [];
    for i := 0 to |nodes|
      invariant Found(adj, nets, seen)
      invariant Seeded(nodes, nets, seeds)
      invariant forall k :: 0 <= k < |seeds| ==> seeds[k] < i
      invariant forall j :: 0 <= j < i ==> nodes[j].id in seen
      invariant |nets| <= i
    {
      nets, seeds, seen := Visit(nodes, adj, nets, seeds, seen, i);
    }
    forall x | x in NodeIds(nodes) ensures x in seen {
      var j :| 0 <= j < |nodes| && nodes[j].id == x;
    }
  }

  /** The first net starts at the first node, so it is that node's
      component. */
  lemma FirstNetOfFirstNode(nodes: seq<Node>, nets: seq<seq<Id>>, seeds: seq<nat>)
    requires Union(nets) == NodeIds(nodes) && Seeded(nodes, nets, seeds)
    requires nodes != []
    ensures nets != [] && seeds[0] == 0 && nets[0][0] == nodes[0].id
  {
    UnionSpec(nets);
    assert nodes[0].id in NodeIds(nodes);
    var l :| 0 <= l < |nets| && nodes[0].id in nets[l];
  }

  /** Walking back through earlier neighbours: a net that meets a set no
      edge leaves has its first id in that set. */
  lemma {:induction false} ReachesFirst(adj: Adjacency, a: seq<Id>, b: seq<Id>, p: nat)
    requires Symmetric(adj) && IsNet(adj, a) && IsNet(adj, b)
    requires p < |a| && a[p] in b
    ensures a[0] in b
    decreases p
  {
    if p > 0 {
      assert HasEarlierNeighbour(adj, a, p);
      var q :| 0 <= q < p && a[p] in Nbrs(adj, a[q]);
      assert Edge(adj, a[q], a[p]);
      assert Edge(adj, a[p], a[q]);
      var i :| 0 <= i < |b| && b[i] == a[p];
      ReachesFirst(adj, a, b, q);
    }
  }

  /** Walking forward: a net whose first id lies in such a set lies in it
      entirely. */
  lemma {:induction false} SpreadsFromFirst(adj: Adjacency, a: seq<Id>, b: seq<Id>, p: nat)
    requires IsNet(adj, a) && IsNet(adj, b) && a[0] in b
    requires p < |a|
    ensures a[p] in b
    decreases p
  {
    if p > 0 {
      assert HasEarlierNeighbour(adj, a, p);
      var q :| 0 <= q < p && a[p] in Nbrs(adj, a[q]);
      SpreadsFromFirst(adj, a, b, q);
      var i :| 0 <= i < |b| && b[i] == a[q];
    }
  }

  /** Two nets that share an id hold the same ids: each is a whole
      connected component. */
  lemma SameComponent(adj: Adjacency, a: seq<Id>, b: seq<Id>, x: Id)
    requires Symmetric(adj) && IsNet(adj, a) && IsNet(adj, b)
    requires x in a && x in b
    ensures Elems(a) == Elems(b)
  {
    var p :| 0 <= p < |a| && a[p] == x;
    var r :| 0 <= r < |b| && b[r] == x;
    ReachesFirst(adj, a, b, p);
    ReachesFirst(adj, b, a, r);
    forall y | y in a ensures y in b {
      var i :| 0 <= i < |a| && a[i] == y;
      SpreadsFromFirst(adj, a, b, i);
    }
    forall y | y in b ensures y in a {
      var i :| 0 <= i < |b| && b[i] == y;
      SpreadsFromFirst(adj, b, a, i);
    }
  }

  /** What `computeNets` promises about its result. */
  ghost predicate NetsOf(nodes: seq<Node>, adj: Adjacency, nets: seq<seq<Id>>, seeds: seq<nat>) {
    Union(nets) == NodeIds(nodes) &&
    (forall k :: 0 <= k < |nets| ==> IsNet(adj, nets[k])) &&
    (forall k, l :: 0 <= k < l < |nets| ==> Elems(nets[k]) !! Elems(nets[l])) &&
    Seeded(nodes, nets, seeds)
  }

  /** The promise fixes the nets up to the order of the ids inside each:
      there are as many, and net `k` holds the same ids, whichever result
      meets it. In particular the node-to-net numbering is determined. */
  lemma NetsDetermined(nodes: seq<Node>, adj: Adjacency, nets: seq<seq<Id>>, seeds: seq<nat>,
                       nets': seq<seq<Id>>, seeds': seq<nat>)
    requires Symmetric(adj)
    requires NetsOf(nodes, adj, nets, seeds) && NetsOf(nodes, adj, nets', seeds')
    ensures |nets| == |nets'|
    ensures forall k :: 0 <= k < |nets| ==> Elems(nets[k]) == Elems(nets'[k])
  {
    var k := if |nets| <= |nets'| then |nets| else |nets'|;
    NetsAgree(nodes, adj, nets, seeds, nets', seeds', k);
    NoExtraNet(nets, nets');
    NoExtraNet(nets', nets);
  }

  /** The first `k` nets of two results hold the same ids, net by net. */
  lemma {:induction false} NetsAgree(nodes: seq<Node>, adj: Adjacency, nets: seq<seq<Id>>, seeds: seq<nat>,
                                     nets': seq<seq<Id>>, seeds': seq<nat>, k: nat)
    requires Symmetric(adj)
    requires NetsOf(nodes, adj, nets, seeds) && NetsOf(nodes, adj, nets', seeds')
    requires k <= |nets| && k <= |nets'|
    ensures forall j :: 0 <= j < k ==> Elems(nets[j]) == Elems(nets'[j])
    decreases k
  {
    if k > 0 {
      NetsAgree(nodes, adj, nets, seeds, nets', seeds', k - 1);
      SameNet(nodes, adj, nets, seeds, nets', seeds', k - 1);
    }
  }

  /** With the first `k` nets holding the same ids, net `k` starts at the
      same node in both results and so holds the same ids too. */
  lemma SameNet(nodes: seq<Node>, adj: Adjacency, nets: seq<seq<Id>>, seeds: seq<nat>,
                nets': seq<seq<Id>>, seeds': seq<nat>, k: nat)
    requires Symmetric(adj)
    requires NetsOf(nodes, adj, nets, seeds) && NetsOf(nodes, adj, nets', seeds')
    requires k < |nets| && k < |nets'|
    requires forall j :: 0 <= j < k ==> Elems(nets[j]) == Elems(nets'[j])
    ensures Elems(nets[k]) == Elems(nets'[k])
  {
    SameSeed(nodes, nets, seeds, nets', seeds', k);
    SameSeed(nodes, nets', seeds', nets, seeds, k);
    var x := nodes[seeds[k]].id;
    assert x == nets[k][0] && x == nets'[k][0];
    SameComponent(adj, nets[k], nets'[k], x);
  }

  /** With the first `k` nets holding the same ids, net `k` of one result
      cannot start before net `k` of the other: its first node would lie
      in a later net of the other result, or in an earlier one that the
      first result also holds. */
  lemma SameSeed(nodes: seq<Node>, nets: seq<seq<Id>>, seeds: seq<nat>, nets': seq<seq<Id>>, seeds': seq<nat>, k: nat)
    requires Seeded(nodes, nets, seeds) && Seeded(nodes, nets', seeds')
    requires Union(nets') == NodeIds(nodes)
    requires forall a, b :: 0 <= a < b < |nets| ==> Elems(nets[a]) !! Elems(nets[b])
    requires k < |nets| && k < |nets'|
    requires forall j :: 0 <= j < k ==> Elems(nets[j]) == Elems(nets'[j])
    ensures seeds'[k] <= seeds[k]
  {
    var x := nodes[seeds[k]].id;
    assert x in Elems(nets[k]);
    assert x in NodeIds(nodes);
    var l := NetOf(nets', x);
    assert x in Elems(nets'[l]);
    if l < k {
      assert false;
    }
  }

  /** Nets covering the same ids, the first ones alike, come in equal
      number: a further net would have to hold an id already covered. */
  lemma NoExtraNet(nets: seq<seq<Id>>, nets': seq<seq<Id>>)
    requires Union(nets) == Union(nets')
    requires forall k :: 0 <= k < |nets'| ==> nets'[k] != []
    requires forall a, b :: 0 <= a < b < |nets'| ==> Elems(nets'[a]) !! Elems(nets'[b])
    requires forall j :: 0 <= j < |nets| && j < |nets'| ==> Elems(nets[j]) == Elems(nets'[j])
    ensures |nets'| <= |nets|
  {
    if |nets| < |nets'| {
      var m := |nets|;
      var x := nets'[m][0];
      InUnion(nets', m, x);
      var l := NetOf(nets, x);
      InElems(nets[l], x);
      assert false;
    }
  }

  /** One pass of the node loop: an unseen node seeds a new net. */
  method Visit(nodes: seq<Node>, adj: Adjacency, nets: seq<seq<Id>>, ghost seeds: seq<nat>, seen: set<Id>, i: nat)
    returns (nets': seq<seq<Id>>, ghost seeds': seq<nat>, seen': set<Id>)
    requires Symmetric(adj) && InKeys(adj)
    requires i < |nodes| && nodes[i].id in adj
    requires Found(adj, nets, seen) && Seeded(nodes, nets, seeds)
    requires forall k :: 0 <= k < |seeds| ==> seeds[k] < i
    requires forall j :: 0 <= j < i ==> nodes[j].id in seen
    requires |nets| <= i
    ensures Found(adj, nets', seen') && Seeded(nodes, nets', seeds')
    ensures forall k :: 0 <= k < |seeds'| ==> seeds'[k] < i + 1
    ensures forall j :: 0 <= j < i + 1 ==> nodes[j].id in seen'
    ensures |nets'| <= i + 1
  {
    var id := nodes[i].id;
    if id in seen {
      return nets, seeds, seen;
    }
    var comp, seen1 := Explore(adj, id, seen);
    SeededStep(nodes, nets, seeds, seen, i, comp);
    FoundStep(adj, nets, seen, comp, seen1);
    nets', seeds', seen' := nets + [comp], seeds + [i], seen1;
  }

  /** The two ends of a kept wire lie in the same net. */
  lemma WireWithinNet(nodes: seq<Node>, wires: seq<Wire>, net: seq<Id>, j: int)
    requires IsNet(AdjOf(nodes, wires), net)
    requires 0 <= j < |wires| && Kept(NodeIds(nodes), wires[j])
    ensures wires[j].aNodeId in net <==> wires[j].bNodeId in net
  {
    var adj := AdjOf(nodes, wires);
    var w := wires[j];
    AdjOfSpec(nodes, wires);
    assert Wired(NodeIds(nodes), wires, w.aNodeId, w.bNodeId);
    assert Wired(NodeIds(nodes), wires, w.bNodeId, w.aNodeId);
    if w.aNodeId in net {
      var p :| 0 <= p < |net| && net[p] == w.aNodeId;
      assert w.bNodeId in Nbrs(adj, net[p]);
    }
    if w.bNodeId in net {
      var p :| 0 <= p < |net| && net[p] == w.bNodeId;
      assert w.aNodeId in Nbrs(adj, net[p]);
    }
  }

  /** Within a net, every id after the first shares a kept wire with an
      earlier one. */
  lemma NetLinkedByWires(nodes: seq<Node>, wires: seq<Wire>, net: seq<Id>, p: int)
    requires IsNet(AdjOf(nodes, wires), net)
    requires 1 <= p < |net|
    ensures exists q :: 0 <= q < p && Wired(NodeIds(nodes), wires, net[q], net[p])
  {
    AdjOfSpec(nodes, wires);
    assert HasEarlierNeighbour(AdjOf(nodes, wires), net, p);
    var q :| 0 <= q < p && net[p] in Nbrs(AdjOf(nodes, wires), net[q]);
  }

  /** A node no kept wire touches forms a net of its own. */
  lemma SingletonNet(nodes: seq<Node>, wires: seq<Wire>, net: seq<Id>, x: Id)
    requires IsNet(AdjOf(nodes, wires), net) && x in net
    requires forall j :: 0 <= j < |wires| && Kept(NodeIds(nodes), wires[j]) ==>
               wires[j].aNodeId != x && wires[j].bNodeId != x
    ensures net == [x]
  {
    var ids := NodeIds(nodes);
    var p :| 0 <= p < |net| && net[p] == x;
    if |net| > 1 {
      var r := if p == 0 then 1 else p;
      NetLinkedByWires(nodes, wires, net, r);
      var q :| 0 <= q < r && Wired(ids, wires, net[q], net[r]);
      assert false;
    }
  }
}
