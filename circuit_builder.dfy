/** The React port's network builder (my-app/src/core/circuitBuilder.js):
    node ids to net indices, the two pins of an item, the stamps each
    item contributes, the call into `solveMNA`, and the reading of the
    solution back into the items. */
module CircuitBuilder {
  import opened Common
  import opened Components
  import opened Topology
  import opened Nets
  import opened MnaSolver
  import opened Utils

  /* ---------- buildNodeToNet (lines 6-13) ---------- */

  /** Every id of `ids` mapped to `k`. */
  function Assign(ids: set<Id>, k: nat): (m: map<Id, nat>)
    ensures m.Keys == ids
    ensures forall id :: id in m ==> m[id] == k
  {
    map id | id in ids :: k
  }

  /** The map `buildNodeToNet` fills: for each net in order, every id in
      it is set to the net's index, so a later net overwrites an earlier. */
  function NetIndex(nets: seq<seq<Id>>): map<Id, nat>
    decreases |nets|
  {
    if nets == [] then map[]
    else NetIndex(nets[..|nets| - 1]) + Assign(Elems(nets[|nets| - 1]), |nets| - 1)
  }

  /** Each id of `m` maps to a net that contains it, and to the last one. */
  ghost predicate MapsToLast(nets: seq<seq<Id>>, m: map<Id, nat>) {
    forall id :: id in m ==>
      m[id] < |nets| && id in nets[m[id]] && forall l :: m[id] < l < |nets| ==> id !in nets[l]
  }

  /** The map's keys are the ids of all nets, and each id maps to the last
      net that contains it. */
  lemma {:induction false} NetIndexSpec(nets: seq<seq<Id>>)
    ensures NetIndex(nets).Keys == Union(nets)
    ensures forall id :: id in NetIndex(nets) ==>
              NetIndex(nets)[id] < |nets| && id in nets[NetIndex(nets)[id]] &&
              forall l :: NetIndex(nets)[id] < l < |nets| ==> id !in nets[l]
    decreases |nets|
  {
    if nets != [] {
      var pre := nets[..|nets| - 1];
      NetIndexSpec(pre);
      assert nets == pre + [nets[|nets| - 1]];
      MapsToLastSnoc(pre, nets[|nets| - 1], NetIndex(pre));
    }
  }

  /** Overwriting with the ids of one more net keeps `MapsToLast`. */
  lemma MapsToLastSnoc(pre: seq<seq<Id>>, net: seq<Id>, m: map<Id, nat>)
    requires MapsToLast(pre, m)
    ensures MapsToLast(pre + [net], m + Assign(Elems(net), |pre|))
  {
    var nets := pre + [net];
    var m' := m + Assign(Elems(net), |pre|);
    forall id | id in m'
      ensures m'[id] < |nets| && id in nets[m'[id]] && forall l :: m'[id] < l < |nets| ==> id !in nets[l]
    {
      if id !in Elems(net) {
        assert m'[id] == m[id];
        assert nets[m[id]] == pre[m[id]];
        forall l | m'[id] < l < |nets| ensures id !in nets[l] {
          if l < |pre| {
            assert nets[l] == pre[l];
          }
        }
      }
    }
  }

  /** With pairwise disjoint nets, which `computeNets` guarantees, an id
      maps to `k` exactly when it lies in net `k`. */
  lemma NetIndexExact(nets: seq<seq<Id>>, id: Id, k: int)
    requires forall i, j :: 0 <= i < j < |nets| ==> Elems(nets[i]) !! Elems(nets[j])
    requires 0 <= k < |nets|
    ensures id in NetIndex(nets) && NetIndex(nets)[id] == k <==> id in nets[k]
  {
    NetIndexSpec(nets);
    if id in nets[k] {
      UnionSpec(nets);
      var j := NetIndex(nets)[id];
      assert id in Elems(nets[k]) && id in Elems(nets[j]);
    }
  }

  /** `buildNodeToNet`: the nets of `computeNets`, in the order of their
      first node, and the id-to-net map. */
  method BuildNodeToNet(nodes: seq<Node>, wires: seq<Wire>) returns (nets: seq<seq<Id>>, nodeToNet: map<Id, nat>, ghost seeds: seq<nat>)
    ensures Union(nets) == NodeIds(nodes)
    ensures forall k :: 0 <= k < |nets| ==> IsNet(AdjOf(nodes, wires), nets[k])
    ensures forall k, l :: 0 <= k < l < |nets| ==> Elems(nets[k]) !! Elems(nets[l])
    ensures Seeded(nodes, nets, seeds)
    ensures nodeToNet == NetIndex(nets)
  {
    nets, seeds := ComputeNets(nodes, wires);
    nodeToNet := IndexNets(nets);
  }

  /** The two loops of `buildNodeToNet` (lines 9-11). */
  method IndexNets(nets: seq<seq<Id>>) returns (nodeToNet: map<Id, nat>)
    ensures nodeToNet == NetIndex(nets)
  {
    nodeToNet := map[];
    for idx := 0 to |nets|
      invariant nodeToNet == NetIndex(nets[..idx])
    {
      var arr := nets[idx];
      ghost var before := nodeToNet;
      for j := 0 to |arr|
        invariant nodeToNet == before + Assign(Elems(arr[..j]), idx)
      {
        AssignStep(before, arr, j, idx);
        nodeToNet := nodeToNet[arr[j] := idx];
      }
      NetIndexStep(nets, idx);
    }
    assert nets[..|nets|] == nets;
  }

  lemma AssignStep(before: map<Id, nat>, arr: seq<Id>, j: nat, k: nat)
    requires j < |arr|
    ensures (before + Assign(Elems(arr[..j]), k))[arr[j] := k] == before + Assign(Elems(arr[..j + 1]), k)
  {
    assert arr[..j + 1] == arr[..j] + [arr[j]];
    ElemsConcat(arr[..j], [arr[j]]);
  }

  lemma NetIndexStep(nets: seq<seq<Id>>, idx: nat)
    requires idx < |nets|
    ensures NetIndex(nets[..idx + 1]) == NetIndex(nets[..idx]) + Assign(Elems(nets[idx][..|nets[idx]|]), idx)
  {
    assert nets[..idx + 1][..idx] == nets[..idx];
    assert nets[idx][..|nets[idx]|] == nets[idx];
  }

  /* ---------- itemPins (lines 16-21) ---------- */

  /** `(n) => n.itemId === itemId`. */
  function OfItem(itemId: Id): Node -> bool {
    (n: Node) => n.itemId == itemId
  }

  /** `nodes.filter((n) => n.itemId === itemId)`. */
  function PinsOf(nodes: seq<Node>, itemId: Id): (pins: seq<Node>)
    ensures |pins| <= |nodes|
    ensures forall p :: p in pins ==> p in nodes && p.itemId == itemId
    ensures forall n :: n in nodes && n.itemId == itemId ==> n in pins
  {
    Filter(nodes, OfItem(itemId))
  }

  /** The pins come in node order: `pins[k]` is the node at the `k`-th
      position holding one of the item's pins, so `pins[0]` and `pins[1]`
      are the first two in the node list. */
  lemma PinsInOrder(nodes: seq<Node>, itemId: Id)
    ensures var pins, idx := PinsOf(nodes, itemId), KeptFrom(nodes, OfItem(itemId), 0);
            |idx| == |pins| &&
            (forall k :: 0 <= k < |idx| ==> idx[k] < |nodes| && pins[k] == nodes[idx[k]]) &&
            (forall k, l :: 0 <= k < l < |idx| ==> idx[k] < idx[l]) &&
            (forall j :: 0 <= j < |nodes| && nodes[j].itemId == itemId ==> j in idx)
  {
    FilterKeepsOrder(nodes, OfItem(itemId), 0);
    assert nodes[0..] == nodes;
  }

  /** `pins.find((p) => p.name === name)`, as the index of the match. */
  function FindNamed(pins: seq<Node>, name: string): (r: Option<nat>)
    ensures r.Some? ==> r.value < |pins| && pins[r.value].name == name &&
                        forall j :: 0 <= j < r.value ==> pins[j].name != name
    ensures r.None? ==> forall j :: 0 <= j < |pins| ==> pins[j].name != name
  {
    if pins == [] then None
    else if pins[0].name == name then Some(0)
    else match FindNamed(pins[1..], name)
      case None => None
      case Some(j) => Some(j + 1)
  }

  /** `itemPins`: the pin named "a", else the first pin; the pin named
      "b", else the second. */
  function ItemPins(nodes: seq<Node>, itemId: Id): (r: (Option<Node>, Option<Node>))
    ensures r.0.Some? ==> r.0.value in nodes && r.0.value.itemId == itemId
    ensures r.1.Some? ==> r.1.value in nodes && r.1.value.itemId == itemId
  {
    var pins := PinsOf(nodes, itemId);
    var a := match FindNamed(pins, "a")
      case Some(i) => Some(pins[i])
      case None => if |pins| > 0 then Some(pins[0]) else None;
    var b := match FindNamed(pins, "b")
      case Some(i) => Some(pins[i])
      case None => if |pins| > 1 then Some(pins[1]) else None;
    (a, b)
  }

  /** An item gets both pins exactly when it has two terminals, or a single
      terminal named "b" (which then serves as both). */
  lemma ItemPinsBoth(nodes: seq<Node>, itemId: Id)
    ensures var pins := PinsOf(nodes, itemId);
            var r := ItemPins(nodes, itemId);
            (r.0.Some? && r.1.Some?) <==> (|pins| >= 2 || (|pins| == 1 && pins[0].name == "b"))
  {
  }

  /** A pin named "a" (resp. "b") is always the one chosen. */
  lemma ItemPinsPreferNamed(nodes: seq<Node>, itemId: Id, p: Node)
    requires p in nodes && p.itemId == itemId
    ensures p.name == "a" ==> ItemPins(nodes, itemId).0.Some? && ItemPins(nodes, itemId).0.value.name == "a"
    ensures p.name == "b" ==> ItemPins(nodes, itemId).1.Some? && ItemPins(nodes, itemId).1.value.name == "b"
  {
    var pins := PinsOf(nodes, itemId);
    assert p in pins;
  }

  /* ---------- solveNormalDC (lines 23-101) ---------- */

  /** The smallest resistance any stamp carries (`Math.max(1e-6, ...)`). */
  const MinR: real := 0.000001

  /** The stamps collected so far; this builder never emits current sources. */
  datatype Netlist = Netlist(resistors: seq<Resistor>, voltageSources: seq<VoltageSource>)

  /** Every node of `nodes` has a net below `nodeCount`. */
  predicate Mapped(nodes: seq<Node>, m: map<Id, nat>, nodeCount: nat) {
    forall n :: n in nodes ==> n.id in m && m[n.id] < nodeCount
  }

  /** The shape every collected netlist keeps: source `k` runs from a net to
      the internal node `nodeCount + k`, resistors join nets or internal
      nodes allocated so far, and no resistance is below `MinR`. */
  predicate Sound(nl: Netlist, nodeCount: nat) {
    (forall k :: 0 <= k < |nl.voltageSources| ==>
       0 <= nl.voltageSources[k].a < nodeCount && nl.voltageSources[k].b == nodeCount + k) &&
    (forall k :: 0 <= k < |nl.resistors| ==>
       0 <= nl.resistors[k].a < nodeCount + |nl.voltageSources| &&
       0 <= nl.resistors[k].b < nodeCount + |nl.voltageSources| &&
       nl.resistors[k].R >= MinR)
  }

  /** The stamps one item adds once its pins sit on nets `na` and `nb`
      (lines 43-74): a resistor, closed switch or bulb adds one resistor
      between the two nets; a battery adds a source from `na` to a fresh
      internal node and its internal resistance from there to `nb`. */
  function StampPins(it: Item, na: nat, nb: nat, nodeCount: nat, acc: Netlist): (r: Netlist)
    requires na < nodeCount && nb < nodeCount
    ensures |acc.resistors| <= |r.resistors| <= |acc.resistors| + 1
    ensures |r.voltageSources| == |acc.voltageSources| + (if it.kind.Battery? then 1 else 0)
    ensures r.resistors[..|acc.resistors|] == acc.resistors
    ensures r.voltageSources[..|acc.voltageSources|] == acc.voltageSources
    ensures it.kind.Switch? && !it.IsClosed() ==> r == acc
    ensures !(it.kind.Resistor? || it.kind.Switch? || it.kind.Bulb? || it.kind.Battery?) ==> r == acc
  {
    match it.kind
    case Resistor =>
      var R := Max(MinR, it.props.R.GetOr(100.0));
      acc.(resistors := acc.resistors + [MnaSolver.Resistor(na, nb, R)])
    case Switch =>
      if it.IsClosed() then acc.(resistors := acc.resistors + [MnaSolver.Resistor(na, nb, 0.0001)])
      else acc
    case Bulb =>
      acc.(resistors := acc.resistors + [MnaSolver.Resistor(na, nb, 30.0)])
    case Battery =>
      var V := it.props.V.GetOr(9.0);
      var Rint := Max(MinR, it.props.Rint.GetOr(0.2));
      var internal := nodeCount + |acc.voltageSources|;
      Netlist(acc.resistors + [MnaSolver.Resistor(internal, nb, Rint)],
              acc.voltageSources + [VoltageSource(na, internal, V)])
    case _ => acc
  }

  /** Lines 37-41: an item without both pins adds nothing; otherwise its
      pins' nets are looked up and it is stamped. */
  function StampItem(it: Item, nodes: seq<Node>, m: map<Id, nat>, nodeCount: nat, acc: Netlist): (r: Netlist)
    requires Mapped(nodes, m, nodeCount)
    ensures ItemPins(nodes, it.id).0.None? || ItemPins(nodes, it.id).1.None? ==> r == acc
  {
    var (a, b) := ItemPins(nodes, it.id);
    if a.None? || b.None? then acc
    else StampPins(it, m[a.value.id], m[b.value.id], nodeCount, acc)
  }

  /** Stamping an item keeps the netlist sound. */
  lemma StampPinsSound(it: Item, na: nat, nb: nat, nodeCount: nat, acc: Netlist)
    requires na < nodeCount && nb < nodeCount && Sound(acc, nodeCount)
    ensures Sound(StampPins(it, na, nb, nodeCount, acc), nodeCount)
  {
  }

  lemma StampItemSound(it: Item, nodes: seq<Node>, m: map<Id, nat>, nodeCount: nat, acc: Netlist)
    requires Mapped(nodes, m, nodeCount) && Sound(acc, nodeCount)
    ensures Sound(StampItem(it, nodes, m, nodeCount, acc), nodeCount)
  {
    var (a, b) := ItemPins(nodes, it.id);
    if a.Some? && b.Some? {
      StampPinsSound(it, m[a.value.id], m[b.value.id], nodeCount, acc);
    }
  }

  /** The netlist after the `for (const it of items)` loop. */
  function StampAll(items: seq<Item>, nodes: seq<Node>, m: map<Id, nat>, nodeCount: nat): (nl: Netlist)
    requires Mapped(nodes, m, nodeCount)
    ensures Sound(nl, nodeCount)
    ensures |nl.voltageSources| <= |items| && |nl.resistors| <= |items|
    decreases |items|
  {
    if items == [] then Netlist([], [])
    else
      var prev := StampAll(items[..|items| - 1], nodes, m, nodeCount);
      StampItemSound(items[|items| - 1], nodes, m, nodeCount, prev);
      StampItem(items[|items| - 1], nodes, m, nodeCount, prev)
  }

  function IMax(a: int, b: int): int {
    if a >= b then a else b
  }

  /** `Math.max(base, ...resistor ends, ...source ends)`. */
  function Largest(base: int, rs: seq<Resistor>, vs: seq<VoltageSource>): int
    decreases |rs| + |vs|
  {
    if rs != [] then Largest(IMax(base, IMax(rs[0].a, rs[0].b)), rs[1..], vs)
    else if vs != [] then Largest(IMax(base, IMax(vs[0].a, vs[0].b)), [], vs[1..])
    else base
  }

  /** `Largest` is the maximum: no smaller than any argument, and equal to one. */
  lemma {:induction false} LargestSpec(base: int, rs: seq<Resistor>, vs: seq<VoltageSource>)
    ensures var r := Largest(base, rs, vs);
            r >= base &&
            (forall k :: 0 <= k < |rs| ==> rs[k].a <= r && rs[k].b <= r) &&
            (forall k :: 0 <= k < |vs| ==> vs[k].a <= r && vs[k].b <= r) &&
            (r == base ||
             (exists k :: 0 <= k < |rs| && (r == rs[k].a || r == rs[k].b)) ||
             (exists k :: 0 <= k < |vs| && (r == vs[k].a || r == vs[k].b)))
    decreases |rs| + |vs|
  {
    if rs != [] {
      LargestSpec(IMax(base, IMax(rs[0].a, rs[0].b)), rs[1..], vs);
      var r := Largest(base, rs, vs);
      forall k | 0 <= k < |rs| ensures rs[k].a <= r && rs[k].b <= r {
        if k > 0 {
          assert rs[k] == rs[1..][k - 1];
        }
      }
      if exists k :: 0 <= k < |rs[1..]| && (r == rs[1..][k].a || r == rs[1..][k].b) {
        var k :| 0 <= k < |rs[1..]| && (r == rs[1..][k].a || r == rs[1..][k].b);
        assert rs[k + 1] == rs[1..][k];
      }
    } else if vs != [] {
      LargestSpec(IMax(base, IMax(vs[0].a, vs[0].b)), [], vs[1..]);
      var r := Largest(base, rs, vs);
      forall k | 0 <= k < |vs| ensures vs[k].a <= r && vs[k].b <= r {
        if k > 0 {
          assert vs[k] == vs[1..][k - 1];
        }
      }
      if exists k :: 0 <= k < |vs[1..]| && (r == vs[1..][k].a || r == vs[1..][k].b) {
        var k :| 0 <= k < |vs[1..]| && (r == vs[1..][k].a || r == vs[1..][k].b);
        assert vs[k + 1] == vs[1..][k];
      }
    }
  }

  /** `maxNodeIndex` (lines 80-85) is the net count plus one internal node
      per battery: the last internal node is the largest index used. */
  lemma MaxNodeIndex(nl: Netlist, nodeCount: nat)
    requires Sound(nl, nodeCount)
    ensures Largest(nodeCount - 1, nl.resistors, nl.voltageSources) + 1 == nodeCount + |nl.voltageSources|
  {
    LargestSpec(nodeCount - 1, nl.resistors, nl.voltageSources);
    var vs := nl.voltageSources;
    if vs != [] {
      assert vs[|vs| - 1].b == nodeCount + |vs| - 1;
    }
  }

  /** A sound netlist is a valid `solveMNA` input with ground 0. */
  lemma SoundIsWellFormed(nl: Netlist, nodeCount: nat)
    requires Sound(nl, nodeCount)
    ensures WellFormed(nodeCount + |nl.voltageSources|, 0, nl.resistors, [], nl.voltageSources)
  {
  }

  /** Why `solveNormalDC` reports `ok: false`. `Thrown` is the caught
      exception (its message is not modelled). */
  datatype Reason = Singular | Thrown

  /** The object `solveNormalDC` returns. Ground is always net 0. */
  datatype DcResult =
    | Failed(reason: Reason)
    | Solved(nodeToNet: map<Id, nat>, nets: seq<seq<Id>>, ground: int, V: seq<real>, Ivs: seq<real>,
             voltageSources: seq<VoltageSource>, resistors: seq<Resistor>)

  /** Lines 80-99 for a collected netlist: the node count handed to the
      solver, the solve, and the result object. */
  function Finish(m: map<Id, nat>, nets: seq<seq<Id>>, nl: Netlist): DcResult
    requires Sound(nl, |nets|)
  {
    SoundIsWellFormed(nl, |nets|);
    Report(m, nets, nl, MnaSpec(NodeCount(nl, |nets|), 0, nl.resistors, [], nl.voltageSources))
  }

  /** `maxNodeIndex + 1` (lines 80-85), the dimension handed to the solver. */
  function NodeCount(nl: Netlist, netCount: nat): (count: nat)
    requires Sound(nl, netCount)
    ensures count == netCount + |nl.voltageSources|
  {
    MaxNodeIndex(nl, netCount);
    Largest(netCount - 1, nl.resistors, nl.voltageSources) + 1
  }

  /** Lines 95-97: a thrown error or `null` becomes `ok: false`, anything
      else the result object. */
  function Report(m: map<Id, nat>, nets: seq<seq<Id>>, nl: Netlist, mna: MnaResult): (r: DcResult)
    ensures r.Failed? <==> !mna.Solution?
    ensures r.Failed? ==> (r.reason == Thrown <==> mna.RangeError?)
    ensures r.Solved? ==> r == Solved(m, nets, 0, mna.V, mna.Ivs, nl.voltageSources, nl.resistors)
  {
    match mna
    case RangeError => Failed(Thrown)
    case NoSolution => Failed(Singular)
    case Solution(V, Ivs) => Solved(m, nets, 0, V, Ivs, nl.voltageSources, nl.resistors)
  }

  /** What `solveNormalDC` returns for the nets `computeNets` found. */
  function Outcome(items: seq<Item>, nodes: seq<Node>, nets: seq<seq<Id>>): DcResult
    requires Union(nets) == NodeIds(nodes)
  {
    NetIndexSpec(nets);
    var m := NetIndex(nets);
    Finish(m, nets, StampAll(items, nodes, m, |nets|))
  }

  /** The map depends only on the ids each net holds. */
  lemma {:induction false} NetIndexSameElems(nets: seq<seq<Id>>, nets': seq<seq<Id>>)
    requires |nets| == |nets'|
    requires forall k :: 0 <= k < |nets| ==> Elems(nets[k]) == Elems(nets'[k])
    ensures NetIndex(nets) == NetIndex(nets')
    decreases |nets|
  {
    if nets != [] {
      NetIndexSameElems(nets[..|nets| - 1], nets'[..|nets| - 1]);
    }
  }

  /** The result of `solveNormalDC` is fixed by its inputs up to the order
      of the ids inside each net: any nets meeting the promise of
      `computeNets` give the same map, the same failure, and the same
      voltages and currents. */
  lemma OutcomeDetermined(items: seq<Item>, nodes: seq<Node>, wires: seq<Wire>,
                          nets: seq<seq<Id>>, seeds: seq<nat>, nets': seq<seq<Id>>, seeds': seq<nat>)
    requires NetsOf(nodes, AdjOf(nodes, wires), nets, seeds)
    requires NetsOf(nodes, AdjOf(nodes, wires), nets', seeds')
    ensures |nets| == |nets'| && NetIndex(nets) == NetIndex(nets')
    ensures var r, r' := Outcome(items, nodes, nets), Outcome(items, nodes, nets');
            (r.Failed? <==> r'.Failed?) && (r.Failed? ==> r == r') && (r.Solved? ==> r.(nets := nets') == r')
  {
    AdjOfSymmetric(nodes, wires);
    NetsDetermined(nodes, AdjOf(nodes, wires), nets, seeds, nets', seeds');
    NetIndexSameElems(nets, nets');
    var m := NetIndex(nets);
    NetIndexSpec(nets);
    var nl := StampAll(items, nodes, m, |nets|);
    FinishIsReport(m, nets, nl);
    FinishIsReport(m, nets', nl);
  }

  /** A source needs a net, so without nets there are no sources. */
  lemma SoundNeedsNets(nl: Netlist, nodeCount: nat)
    requires Sound(nl, nodeCount)
    ensures |nl.voltageSources| > 0 ==> nodeCount > 0
  {
    if |nl.voltageSources| > 0 {
      assert 0 <= nl.voltageSources[0].a < nodeCount;
    }
  }

  lemma FinishShape(m: map<Id, nat>, nets: seq<seq<Id>>, nl: Netlist)
    requires Sound(nl, |nets|)
    ensures Finish(m, nets, nl) == Failed(Thrown) <==> nets == []
    ensures Finish(m, nets, nl).Solved? ==>
              var r := Finish(m, nets, nl);
              |r.V| == |nets| + |r.voltageSources| && |r.Ivs| == |r.voltageSources| && r.V[0] == 0.0 &&
              r.voltageSources == nl.voltageSources
  {
    var count := NodeCount(nl, |nets|);
    FinishIsReport(m, nets, nl);
    SoundNeedsNets(nl, |nets|);
    MnaSpecShape(count, 0, nl.resistors, [], nl.voltageSources);
    ReportShape(m, nets, nl, MnaSpec(count, 0, nl.resistors, [], nl.voltageSources));
  }

  /** `Finish` reports what the solver returns for the netlist. */
  lemma FinishIsReport(m: map<Id, nat>, nets: seq<seq<Id>>, nl: Netlist)
    requires Sound(nl, |nets|)
    ensures WellFormed(NodeCount(nl, |nets|), 0, nl.resistors, [], nl.voltageSources)
    ensures Finish(m, nets, nl) ==
            Report(m, nets, nl, MnaSpec(NodeCount(nl, |nets|), 0, nl.resistors, [], nl.voltageSources))
  {
    SoundIsWellFormed(nl, |nets|);
  }

  /** The report of a solver result of the expected shape has that shape. */
  lemma ReportShape(m: map<Id, nat>, nets: seq<seq<Id>>, nl: Netlist, mna: MnaResult)
    requires mna.RangeError? <==> |nets| + |nl.voltageSources| == 0
    requires mna.Solution? ==>
               |mna.V| == |nets| + |nl.voltageSources| && mna.V[0] == 0.0 && |mna.Ivs| == |nl.voltageSources|
    requires |nl.voltageSources| > 0 ==> |nets| > 0
    ensures Report(m, nets, nl, mna) == Failed(Thrown) <==> nets == []
    ensures Report(m, nets, nl, mna).Solved? ==>
              var r := Report(m, nets, nl, mna);
              |r.V| == |nets| + |r.voltageSources| && |r.Ivs| == |r.voltageSources| && r.V[0] == 0.0 &&
              r.voltageSources == nl.voltageSources
  {
  }

  /** There is a net exactly when there is a node, nets being non-empty. */
  lemma NetsIffNodes(nodes: seq<Node>, nets: seq<seq<Id>>)
    requires Union(nets) == NodeIds(nodes)
    requires forall k :: 0 <= k < |nets| ==> nets[k] != []
    ensures nets != [] <==> nodes != []
  {
    UnionSpec(nets);
    if nets != [] {
      assert nets[0][0] in Union(nets);
    }
    if nodes != [] {
      assert nodes[0].id in NodeIds(nodes);
    }
  }

  /** The exception path is taken exactly when there are no nodes at all:
      then the solver is asked for a matrix of dimension -1. Otherwise a
      solution has one voltage per net and internal node, and one current
      per battery. */
  lemma OutcomeShape(items: seq<Item>, nodes: seq<Node>, nets: seq<seq<Id>>)
    requires Union(nets) == NodeIds(nodes)
    requires forall k :: 0 <= k < |nets| ==> nets[k] != []
    ensures Outcome(items, nodes, nets) == Failed(Thrown) <==> nodes == []
    ensures Outcome(items, nodes, nets).Solved? ==>
              var r := Outcome(items, nodes, nets);
              |r.V| == |nets| + |r.voltageSources| && |r.Ivs| == |r.voltageSources| && r.V[0] == 0.0 &&
              |r.voltageSources| <= |items|
  {
    NetsIffNodes(nodes, nets);
    NetIndexSpec(nets);
    var nl := StampAll(items, nodes, NetIndex(nets), |nets|);
    FinishShape(NetIndex(nets), nets, nl);
  }

  lemma StampAllSnoc(items: seq<Item>, nodes: seq<Node>, m: map<Id, nat>, nodeCount: nat, i: nat)
    requires Mapped(nodes, m, nodeCount) && i < |items|
    ensures StampAll(items[..i + 1], nodes, m, nodeCount) ==
            StampItem(items[i], nodes, m, nodeCount, StampAll(items[..i], nodes, m, nodeCount))
  {
    assert items[..i + 1][..i] == items[..i];
  }

  /** The body of the stamping loop once the pins' nets are known
      (lines 43-74): the pushes onto `resistors` and `voltageSources`. */
  method StampInto(it: Item, na: nat, nb: nat, nodeCount: nat, rs: seq<Resistor>, vs: seq<VoltageSource>)
    returns (resistors: seq<Resistor>, voltageSources: seq<VoltageSource>)
    requires na < nodeCount && nb < nodeCount
    ensures Netlist(resistors, voltageSources) == StampPins(it, na, nb, nodeCount, Netlist(rs, vs))
  {
    resistors, voltageSources := rs, vs;
    match it.kind {
      case Resistor =>
        var R := Max(MinR, it.props.R.GetOr(100.0));
        resistors := resistors + [MnaSolver.Resistor(na, nb, R)];
      case Switch =>
        if it.IsClosed() {
          resistors := resistors + [MnaSolver.Resistor(na, nb, 0.0001)];
        }
      case Bulb =>
        resistors := resistors + [MnaSolver.Resistor(na, nb, 30.0)];
      case Battery =>
        var V := it.props.V.GetOr(9.0);
        var Rint := Max(MinR, it.props.Rint.GetOr(0.2));
        var internal := nodeCount + |voltageSources|;
        voltageSources := voltageSources + [VoltageSource(na, internal, V)];
        resistors := resistors + [MnaSolver.Resistor(internal, nb, Rint)];
      case _ =>
    }
  }

  /** The stamping loop (lines 36-77). */
  method CollectStamps(items: seq<Item>, nodes: seq<Node>, m: map<Id, nat>, nodeCount: nat) returns (nl: Netlist)
    requires Mapped(nodes, m, nodeCount)
    ensures nl == StampAll(items, nodes, m, nodeCount)
  {
    var resistors: seq<Resistor> := [];
    var voltageSources: seq<VoltageSource> := [];
    for i := 0 to |items|
      invariant Netlist(resistors, voltageSources) == StampAll(items[..i], nodes, m, nodeCount)
    {
      StampAllSnoc(items, nodes, m, nodeCount, i);
      var it := items[i];
      var (a, b) := ItemPins(nodes, it.id);
      if a.None? || b.None? {
        continue;
      }
      var na := m[a.value.id];
      var nb := m[b.value.id];
      resistors, voltageSources := StampInto(it, na, nb, nodeCount, resistors, voltageSources);
    }
    assert items[..|items|] == items;
    nl := Netlist(resistors, voltageSources);
  }

  /** Lines 80-97: the solver call on a collected netlist. */
  method SolveNetlist(nodeToNet: map<Id, nat>, nets: seq<seq<Id>>, nl: Netlist) returns (res: DcResult)
    requires Sound(nl, |nets|)
    ensures res == Finish(nodeToNet, nets, nl)
  {
    var nodeCount := |nets|;
    var ground := 0;
    SoundIsWellFormed(nl, nodeCount);
    var maxNodeIndex := NodeCount(nl, nodeCount);
    var mna := SolveMna(maxNodeIndex, ground, nl.resistors, [], nl.voltageSources);
    match mna {
      case RangeError => res := Failed(Thrown);
      case NoSolution => res := Failed(Singular);
      case Solution(V, Ivs) => res := Solved(nodeToNet, nets, ground, V, Ivs, nl.voltageSources, nl.resistors);
    }
    assert res == Report(nodeToNet, nets, nl, mna);
  }

  /** `solveNormalDC`: the nets, then the stamps, then the solve. The
      exception path is the only one taken without nodes. The nets come in
      the order of their first node, so net 0, the ground, is the
      component of the first node. */
  method SolveNormalDC(items: seq<Item>, nodes: seq<Node>, wires: seq<Wire>)
    returns (res: DcResult, ghost nets: seq<seq<Id>>, ghost seeds: seq<nat>)
    ensures Union(nets) == NodeIds(nodes)
    ensures forall k :: 0 <= k < |nets| ==> IsNet(AdjOf(nodes, wires), nets[k])
    ensures forall k, l :: 0 <= k < l < |nets| ==> Elems(nets[k]) !! Elems(nets[l])
    ensures Seeded(nodes, nets, seeds)
    ensures nodes != [] ==> nets != [] && nets[0][0] == nodes[0].id
    ensures res == Outcome(items, nodes, nets)
    ensures res == Failed(Thrown) <==> nodes == []
  {
    var found, nodeToNet;
    found, nodeToNet, seeds := BuildNodeToNet(nodes, wires);
    nets := found;
    if nodes != [] {
      FirstNetOfFirstNode(nodes, found, seeds);
    }
    NetIndexSpec(found);
    var nl := CollectStamps(items, nodes, nodeToNet, |found|);
    res := SolveNetlist(nodeToNet, found, nl);
    forall k | 0 <= k < |found| ensures found[k] != [] {
      assert IsNet(AdjOf(nodes, wires), found[k]);
    }
    OutcomeShape(items, nodes, found);
  }

  /* ---------- applySolutionToItems (lines 103-146) ---------- */

  /** `mna.V[n] ?? 0`: an index with no entry reads as 0. */
  function VoltageAt(V: seq<real>, n: int): real {
    if 0 <= n < |V| then V[n] else 0.0
  }

  /** JavaScript falsiness of a `display` string: absent or empty. */
  predicate Blank(d: Option<string>) {
    d.None? || d == Some("")
  }

  /** `Math.max(0, Math.min(1, Math.abs(dv) / 6))`: proportional to the
      voltage across the bulb up to 6 V, full brightness from there on. */
  function Brightness(dv: real): (b: real)
    ensures 0.0 <= b <= 1.0
    ensures Abs(dv) <= 6.0 ==> b * 6.0 == Abs(dv)
    ensures Abs(dv) >= 6.0 ==> b == 1.0
  {
    Clamp(Abs(dv) / 6.0, 0.0, 1.0)
  }

  /** The copy of one item on the success path (lines 129-145): a meter
      with a blank display shows "—", a bulb with both hidden nets set gets
      the brightness of the voltage between them, and every other field
      and item is kept. */
  function ShowSolution(it: Item, V: seq<real>): (r: Item)
    ensures r.id == it.id && r.kind == it.kind && r.x == it.x && r.y == it.y
    ensures r.netA == it.netA && r.netB == it.netB
    ensures it.kind.IsMeter() ==> !Blank(r.props.display) &&
                                  (Blank(it.props.display) ==> r.props.display == Some(Dash)) &&
                                  (!Blank(it.props.display) ==> r == it) &&
                                  r.props.(display := it.props.display) == it.props
    ensures it.kind.Bulb? && it.netA.Some? && it.netB.Some? ==>
              var dv := VoltageAt(V, it.netA.value) - VoltageAt(V, it.netB.value);
              r.props.brightness.Some? && 0.0 <= r.props.brightness.value <= 1.0 &&
              (Abs(dv) <= 6.0 ==> r.props.brightness.value * 6.0 == Abs(dv)) &&
              (Abs(dv) >= 6.0 ==> r.props.brightness.value == 1.0) &&
              r.props.(brightness := it.props.brightness) == it.props
    ensures !it.kind.IsMeter() && !(it.kind.Bulb? && it.netA.Some? && it.netB.Some?) ==> r == it
  {
    if it.kind.IsMeter() then
      if Blank(it.props.display) then it.(props := it.props.(display := Some(Dash))) else it
    else if it.kind.Bulb? && it.netA.Some? && it.netB.Some? then
      var dv := VoltageAt(V, it.netA.value) - VoltageAt(V, it.netB.value);
      it.(props := it.props.(brightness := Some(Brightness(dv))))
    else it
  }

  /** `applySolutionToItems(items, sol)`: a new list, item for item; on
      failure every reading is reset, on success the solution is shown. */
  function ApplySolution(items: seq<Item>, sol: DcResult): (r: seq<Item>)
    ensures |r| == |items|
    ensures sol.Failed? ==> r == ResetReadings(items)
    ensures sol.Solved? ==> forall i :: 0 <= i < |items| ==> r[i] == ShowSolution(items[i], sol.V)
  {
    if sol.Failed? then ResetReadings(items)
    else seq(|items|, i requires 0 <= i < |items| => ShowSolution(items[i], sol.V))
  }

  /** Applying the same solution twice changes nothing more: readings are
      a function of the solution, not of the previous readings. */
  lemma ApplySolutionIdempotent(items: seq<Item>, sol: DcResult)
    ensures ApplySolution(ApplySolution(items, sol), sol) == ApplySolution(items, sol)
  {
    var once := ApplySolution(items, sol);
    var twice := ApplySolution(once, sol);
    forall i | 0 <= i < |items| ensures twice[i] == once[i] {
      if sol.Failed? {
        assert twice[i] == ResetReading(once[i]);
      } else {
        assert twice[i] == ShowSolution(once[i], sol.V);
      }
    }
  }

  /** On either path only the reading fields change: ids, kinds,
      positions and the other properties stay as they were. */
  lemma ApplySolutionKeeps(items: seq<Item>, sol: DcResult, i: int)
    requires 0 <= i < |items|
    ensures var r := ApplySolution(items, sol)[i];
            r.id == items[i].id && r.kind == items[i].kind && r.x == items[i].x && r.y == items[i].y &&
            r.props.(display := items[i].props.display, brightness := items[i].props.brightness) == items[i].props
  {
  }
}
