/** `chooseGround`, `buildCircuit` and `solveNormalDC` of the standalone
    script (app.js lines 1075-1082 and 1186-1252).

    Every item whose two terminals have nets is stamped: resistors and
    bulbs by their resistance, switches as a short or an open, ammeters as
    a short, and batteries as an ideal source, possibly behind an internal
    resistance that needs a net of its own. With sources disabled (for the
    ohmmeter) a battery becomes its internal resistance. */
module ScriptCircuit {
  import opened Common
  import opened Components
  import opened ScriptTopology
  import opened ScriptNets
  import opened ScriptMna
  import Nets

  /** `R_OPEN` and `R_SHORT`. */
  const ROpen: real := 1000000000000.0
  const RShort: real := 0.000001

  /** The floor of a resistor's or bulb's resistance. */
  const MinItemR: real := 0.000000001

  /** `x || d` on an optional number: a missing value and 0 both give `d`. */
  function OrElse(o: Option<real>, d: real): (r: real)
    ensures o.None? || o.value == 0.0 ==> r == d
    ensures o.Some? && o.value != 0.0 ==> r == o.value
  {
    if o.None? || o.value == 0.0 then d else o.value
  }

  /** A net number is truthy: present and not 0. */
  predicate Present(n: Option<nat>) {
    n.Some? && n.value != 0
  }

  /** `state.items.find((i) => i.type === "battery")`, as an index. */
  function FirstBattery(items: seq<Item>): (r: Option<nat>)
    ensures r.Some? ==> r.value < |items| && items[r.value].kind.Battery? &&
                        forall j :: 0 <= j < r.value ==> !items[j].kind.Battery?
    ensures r.None? ==> forall j :: 0 <= j < |items| ==> !items[j].kind.Battery?
    decreases |items|
  {
    if items == [] then None
    else if items[0].kind.Battery? then Some(0)
    else match FirstBattery(items[1..])
      case None => None
      case Some(j) => Some(j + 1)
  }

  /** `chooseGround(netOfNode)`: the net of the first battery's minus
      terminal when it has one, net 1 otherwise. */
  function ChooseGround(items: seq<Item>, nodes: seq<Node>, netOfNode: map<Id, nat>): nat {
    match FirstBattery(items)
    case None => 1
    case Some(i) =>
      var g := NetOfTerminal(nodes, netOfNode, items[i].id, L);
      if Present(g) then g.value else 1
  }

  /** Every net number lies in `1 .. netCount`. */
  ghost predicate NumbersIn(netOfNode: map<Id, nat>, netCount: nat) {
    forall id :: id in netOfNode ==> IsNetOf(netOfNode[id], netCount)
  }

  /** The ground is one of the nets, and it is the first battery's minus
      net whenever that terminal has a net. */
  lemma GroundIsNet(items: seq<Item>, nodes: seq<Node>, netOfNode: map<Id, nat>, netCount: nat)
    requires NumbersIn(netOfNode, netCount) && netCount >= 1
    ensures IsNetOf(ChooseGround(items, nodes, netOfNode), netCount)
    ensures forall i :: (0 <= i < |items| && items[i].kind.Battery? &&
                         (forall j :: 0 <= j < i ==> !items[j].kind.Battery?) &&
                         Present(NetOfTerminal(nodes, netOfNode, items[i].id, L))) ==>
              ChooseGround(items, nodes, netOfNode) == NetOfTerminal(nodes, netOfNode, items[i].id, L).value
  {
    match FirstBattery(items)
    case None =>
    case Some(b) =>
      var g := NetOfTerminal(nodes, netOfNode, items[b].id, L);
      if Present(g) {
        var i :| 0 <= i < |nodes| && IsTerminal(nodes[i], items[b].id, L) && nodes[i].id in netOfNode && netOfNode[nodes[i].id] == g.value;
      }
  }

  /** The stamps collected so far and the net count, which grows by one
      for every internal battery net. */
  datatype Stamped = Stamped(rs: seq<Resistor>, vs: seq<VoltageSource>, netCount: nat)

  /** The stamps of one item with terminal nets `nL` and `nR` (lines
      1209-1232). */
  function StampItem(it: Item, nL: nat, nR: nat, disable: bool, acc: Stamped): Stamped {
    match it.kind
    case Resistor => acc.(rs := acc.rs + [ScriptMna.Resistor(it.id, nL, nR, Max(MinItemR, OrElse(it.props.R, 1.0)))])
    case Bulb => acc.(rs := acc.rs + [ScriptMna.Resistor(it.id, nL, nR, Max(MinItemR, OrElse(it.props.R, 30.0)))])
    case Switch => acc.(rs := acc.rs + [ScriptMna.Resistor(it.id, nL, nR, if it.IsClosed() then RShort else ROpen)])
    case Ammeter => acc.(rs := acc.rs + [ScriptMna.Resistor(it.id, nL, nR, RShort)])
    case Battery =>
      var V := OrElse(it.props.V, 0.0);
      var Rint := Max(0.0, it.props.Rint.GetOr(0.0));
      if disable then
        acc.(rs := acc.rs + [ScriptMna.Resistor(it.id, nL, nR, if Rint > 0.0 then Rint else RShort)])
      else if Rint <= 0.0 then
        acc.(vs := acc.vs + [VoltageSource(it.id, nR, nL, V)])
      else
        var nInt := acc.netCount + 1;
        Stamped(acc.rs + [ScriptMna.Resistor(it.id + "_rint", nInt, nR, Rint)], acc.vs + [VoltageSource(it.id, nInt, nL, V)], nInt)
    case _ => acc
  }

  /** The loop of lines 1204-1233 over the items, in order; an item with
      a terminal without a net is skipped. */
  function StampItems(items: seq<Item>, nodes: seq<Node>, netOfNode: map<Id, nat>, base: nat, disable: bool): Stamped
    decreases |items|
  {
    if items == [] then Stamped([], [], base)
    else
      var acc := StampItems(items[..|items| - 1], nodes, netOfNode, base, disable);
      var it := items[|items| - 1];
      var nL := NetOfTerminal(nodes, netOfNode, it.id, L);
      var nR := NetOfTerminal(nodes, netOfNode, it.id, R);
      if !Present(nL) || !Present(nR) then acc else StampItem(it, nL.value, nR.value, disable, acc)
  }

  /** `{ netOfNode, netCount, groundNet, resistors, vsources }`. */
  datatype Circuit = Circuit(netOfNode: map<Id, nat>, netCount: nat, ground: nat,
                             rs: seq<Resistor>, vs: seq<VoltageSource>)

  /** What `buildCircuit` returns once the nets are known. */
  function CircuitOf(items: seq<Item>, nodes: seq<Node>, netOfNode: map<Id, nat>, base: nat, disable: bool): Circuit {
    var s := StampItems(items, nodes, netOfNode, base, disable);
    Circuit(netOfNode, s.netCount, ChooseGround(items, nodes, netOfNode), s.rs, s.vs)
  }

  /** The nets of both terminals of an item, when both are present. */
  predicate Wired(nodes: seq<Node>, netOfNode: map<Id, nat>, it: Item) {
    Present(NetOfTerminal(nodes, netOfNode, it.id, L)) && Present(NetOfTerminal(nodes, netOfNode, it.id, R))
  }

  /** The nets the stamps use: every resistor end is a net, internal ones
      included; a source's negative end is a net of the wire graph; each
      internal net feeds one source; with sources disabled there is no
      source and no new net. */
  ghost predicate StampsShape(base: nat, disable: bool, s: Stamped) {
    base <= s.netCount &&
    (forall k :: 0 <= k < |s.rs| ==> IsNetOf(s.rs[k].a, s.netCount) && IsNetOf(s.rs[k].b, s.netCount)) &&
    (forall k :: 0 <= k < |s.vs| ==> IsNetOf(s.vs[k].a, s.netCount) && IsNetOf(s.vs[k].b, base)) &&
    (forall k, l :: 0 <= k < l < |s.vs| && s.vs[k].a > base ==> s.vs[k].a != s.vs[l].a) &&
    (disable ==> s.vs == [] && s.netCount == base)
  }

  /** `id` is the id of a wired battery among the items. */
  ghost predicate Owned(items: seq<Item>, nodes: seq<Node>, netOfNode: map<Id, nat>, id: Id) {
    exists i :: 0 <= i < |items| && items[i].kind.Battery? && items[i].id == id && Wired(nodes, netOfNode, items[i])
  }

  /** Every source is the source of a wired battery. */
  ghost predicate SourcesOwned(items: seq<Item>, nodes: seq<Node>, netOfNode: map<Id, nat>, vs: seq<VoltageSource>) {
    forall k :: 0 <= k < |vs| ==> Owned(items, nodes, netOfNode, vs[k].id)
  }

  /** What the stamps of a prefix of the items satisfy. */
  ghost predicate StampsOk(items: seq<Item>, nodes: seq<Node>, netOfNode: map<Id, nat>, base: nat, disable: bool, s: Stamped) {
    StampsShape(base, disable, s) && SourcesOwned(items, nodes, netOfNode, s.vs)
  }

  /** What one item adds: resistors from `nL` or the new internal net to
      `nR`, at most one source (a battery's, from `nR` or the new internal
      net to `nL`), and at most one new net. */
  lemma StampItemAdds(it: Item, nL: nat, nR: nat, disable: bool, acc: Stamped)
    ensures var r := StampItem(it, nL, nR, disable, acc);
      acc.netCount <= r.netCount <= acc.netCount + 1 &&
      |acc.rs| <= |r.rs| && r.rs[..|acc.rs|] == acc.rs &&
      (forall k :: |acc.rs| <= k < |r.rs| ==> (r.rs[k].a == nL || r.rs[k].a == r.netCount) && r.rs[k].b == nR) &&
      (r.vs == acc.vs ||
       (|r.vs| == |acc.vs| + 1 && r.vs[..|acc.vs|] == acc.vs && it.kind.Battery? && !disable &&
        r.vs[|acc.vs|].id == it.id && r.vs[|acc.vs|].b == nL &&
        ((r.vs[|acc.vs|].a == nR && r.netCount == acc.netCount) ||
         (r.vs[|acc.vs|].a == r.netCount == acc.netCount + 1)))) &&
      (r.netCount != acc.netCount ==> r.vs != acc.vs) &&
      (disable ==> r.vs == acc.vs && r.netCount == acc.netCount)
  {
  }

  /** One item with terminal nets `nL` and `nR` keeps the stamps' nets in
      range. */
  lemma StampShapeStep(it: Item, nL: nat, nR: nat, base: nat, disable: bool, acc: Stamped)
    requires IsNetOf(nL, base) && IsNetOf(nR, base)
    requires StampsShape(base, disable, acc)
    ensures StampsShape(base, disable, StampItem(it, nL, nR, disable, acc))
  {
    var r := StampItem(it, nL, nR, disable, acc);
    StampItemAdds(it, nL, nR, disable, acc);
    forall k | 0 <= k < |r.rs| ensures IsNetOf(r.rs[k].a, r.netCount) && IsNetOf(r.rs[k].b, r.netCount) {
      if k < |acc.rs| {
        assert r.rs[k] == acc.rs[k];
      }
    }
    forall k | 0 <= k < |r.vs| ensures IsNetOf(r.vs[k].a, r.netCount) && IsNetOf(r.vs[k].b, base) {
      if k < |acc.vs| {
        assert r.vs[k] == acc.vs[k];
      }
    }
    forall k, l | 0 <= k < l < |r.vs| && r.vs[k].a > base ensures r.vs[k].a != r.vs[l].a {
      assert r.vs[k] == acc.vs[k];
      if l < |acc.vs| {
        assert r.vs[l] == acc.vs[l];
      }
    }
  }

  /** Appending an item keeps every source owned, and a new source is the
      new item's, when that item is a wired battery. */
  lemma SourcesOwnedStep(items: seq<Item>, nodes: seq<Node>, netOfNode: map<Id, nat>, it: Item,
                         vs: seq<VoltageSource>, vs': seq<VoltageSource>)
    requires SourcesOwned(items, nodes, netOfNode, vs)
    requires vs' == vs ||
             (|vs'| == |vs| + 1 && vs'[..|vs|] == vs && vs'[|vs|].id == it.id &&
              it.kind.Battery? && Wired(nodes, netOfNode, it))
    ensures SourcesOwned(items + [it], nodes, netOfNode, vs')
  {
    var items' := items + [it];
    forall k | 0 <= k < |vs'| ensures Owned(items', nodes, netOfNode, vs'[k].id) {
      if k < |vs| {
        assert vs'[k] == vs[k];
        var i :| 0 <= i < |items| && items[i].kind.Battery? && items[i].id == vs[k].id && Wired(nodes, netOfNode, items[i]);
        assert items'[i] == items[i];
      } else {
        assert items'[|items|] == it;
      }
    }
  }

  /** The stamps are well formed for the solver, the internal nets are
      new and each belongs to one battery, every source is a wired
      battery's, and with sources disabled there is no source and no new
      net. */
  lemma {:induction false} StampItemsOk(items: seq<Item>, nodes: seq<Node>, netOfNode: map<Id, nat>, base: nat, disable: bool)
    requires NumbersIn(netOfNode, base)
    ensures StampsOk(items, nodes, netOfNode, base, disable, StampItems(items, nodes, netOfNode, base, disable))
    decreases |items|
  {
    if items != [] {
      var pre := items[..|items| - 1];
      var it := items[|items| - 1];
      var acc := StampItems(pre, nodes, netOfNode, base, disable);
      StampItemsOk(pre, nodes, netOfNode, base, disable);
      assert pre + [it] == items;
      if Wired(nodes, netOfNode, it) {
        var nL := NetOfTerminal(nodes, netOfNode, it.id, L).value;
        var nR := NetOfTerminal(nodes, netOfNode, it.id, R).value;
        assert IsNetOf(nL, base) && IsNetOf(nR, base);
        StampShapeStep(it, nL, nR, base, disable, acc);
        StampItemAdds(it, nL, nR, disable, acc);
        SourcesOwnedStep(pre, nodes, netOfNode, it, acc.vs, StampItem(it, nL, nR, disable, acc).vs);
      } else {
        SourcesOwnedStep(pre, nodes, netOfNode, it, acc.vs, acc.vs);
      }
    }
  }

  /** A built circuit is one the solver accepts: ground, every terminal,
      and every net number are nets of the circuit. */
  ghost predicate Solvable(c: Circuit) {
    WellFormed(c.netCount, c.ground, c.rs, c.vs) && NumbersIn(c.netOfNode, c.netCount)
  }

  lemma CircuitOfSolvable(items: seq<Item>, nodes: seq<Node>, netOfNode: map<Id, nat>, base: nat, disable: bool)
    requires NumbersIn(netOfNode, base) && base >= 1
    ensures Solvable(CircuitOf(items, nodes, netOfNode, base, disable))
    ensures disable ==> CircuitOf(items, nodes, netOfNode, base, disable).vs == [] &&
                        CircuitOf(items, nodes, netOfNode, base, disable).netCount == base
  {
    StampItemsOk(items, nodes, netOfNode, base, disable);
    GroundIsNet(items, nodes, netOfNode, base);
  }

  /** The facts `computeNets` establishes about `netOfNode`. */
  ghost predicate NetsOf(nodes: seq<Node>, wires: seq<Wire>, netOfNode: map<Id, nat>, nets: seq<seq<Id>>) {
    (forall k :: 0 <= k < |nets| ==> Nets.IsNet(Graph(nodes, wires), nets[k])) &&
    (forall k, l :: 0 <= k < l < |nets| ==> Nets.Elems(nets[k]) !! Nets.Elems(nets[l])) &&
    Numbered(netOfNode, nets) &&
    NumbersIn(netOfNode, |nets|) &&
    (forall i :: 0 <= i < |nodes| ==> nodes[i].id in netOfNode)
  }

  /** One pass of the item loop with its virtual net allocation. */
  method StampOne(it: Item, nodes: seq<Node>, netOfNode: map<Id, nat>, disable: bool,
                  rs: seq<Resistor>, vs: seq<VoltageSource>, netCount: nat)
    returns (rs': seq<Resistor>, vs': seq<VoltageSource>, netCount': nat)
    ensures (if Wired(nodes, netOfNode, it)
             then StampItem(it, NetOfTerminal(nodes, netOfNode, it.id, L).value,
                            NetOfTerminal(nodes, netOfNode, it.id, R).value, disable, Stamped(rs, vs, netCount))
             else Stamped(rs, vs, netCount)) == Stamped(rs', vs', netCount')
  {
    rs', vs', netCount' := rs, vs, netCount;
    var nL := NetOfTerminal(nodes, netOfNode, it.id, L);
    var nR := NetOfTerminal(nodes, netOfNode, it.id, R);
    if !Present(nL) || !Present(nR) {
      return;
    }
    var a, b := nL.value, nR.value;
    match it.kind {
      case Resistor => rs' := rs' + [ScriptMna.Resistor(it.id, a, b, Max(MinItemR, OrElse(it.props.R, 1.0)))];
      case Bulb => rs' := rs' + [ScriptMna.Resistor(it.id, a, b, Max(MinItemR, OrElse(it.props.R, 30.0)))];
      case Switch => rs' := rs' + [ScriptMna.Resistor(it.id, a, b, if it.IsClosed() then RShort else ROpen)];
      case Ammeter => rs' := rs' + [ScriptMna.Resistor(it.id, a, b, RShort)];
      case Battery =>
        var V := OrElse(it.props.V, 0.0);
        var Rint := Max(0.0, it.props.Rint.GetOr(0.0));
        if disable {
          rs' := rs' + [ScriptMna.Resistor(it.id, a, b, if Rint > 0.0 then Rint else RShort)];
        } else if Rint <= 0.0 {
          vs' := vs' + [VoltageSource(it.id, b, a, V)];
        } else {
          netCount' := netCount' + 1;
          var nInt := netCount';
          vs' := vs' + [VoltageSource(it.id, nInt, a, V)];
          rs' := rs' + [ScriptMna.Resistor(it.id + "_rint", nInt, b, Rint)];
        }
      case _ =>
    }
  }

  /** `c` is what `buildCircuit` returns: `None` exactly when there are
      no nodes (no nets); otherwise the circuit stamped over nets `nets`
      with the properties `computeNets` gives them. */
  ghost predicate BuiltBy(items: seq<Item>, nodes: seq<Node>, wires: seq<Wire>, disable: bool,
                          c: Option<Circuit>, nets: seq<seq<Id>>) {
    (c.None? <==> |nodes| == 0) &&
    (c.Some? ==> NetsOf(nodes, wires, c.value.netOfNode, nets) &&
                 c.value == CircuitOf(items, nodes, c.value.netOfNode, |nets|, disable) &&
                 Solvable(c.value))
  }

  /** `buildCircuit({ disableVoltageSources })`. */
  method BuildCircuit(items: seq<Item>, nodes: seq<Node>, wires: seq<Wire>, disable: bool)
    returns (c: Option<Circuit>, ghost nets: seq<seq<Id>>)
    ensures BuiltBy(items, nodes, wires, disable, c, nets)
  {
    var netOfNode, baseNetCount;
    netOfNode, baseNetCount, nets := ComputeNets(nodes, wires);
    if baseNetCount == 0 {
      return None, nets;
    }
    var netCount := baseNetCount;
    var groundNet := ChooseGround(items, nodes, netOfNode);
    var rs: seq<Resistor> := [];
    var vs: seq<VoltageSource> := [];
    for i := 0 to |items|
      invariant Stamped(rs, vs, netCount) == StampItems(items[..i], nodes, netOfNode, baseNetCount, disable)
    {
      assert items[..i + 1][..i] == items[..i];
      rs, vs, netCount := StampOne(items[i], nodes, netOfNode, disable, rs, vs, netCount);
    }
    assert items[..|items|] == items;
    c := Some(Circuit(netOfNode, netCount, groundNet, rs, vs));
    CircuitOfSolvable(items, nodes, netOfNode, baseNetCount, disable);
  }

  /** `{ ...c, ...solved }`: the circuit with its solution. */
  datatype DcSolution = DcSolution(circuit: Circuit, Vnet: map<nat, real>, Ivs: map<Id, real>)

  /** What `solveNormalDC()` returns for the circuit built with sources
      on: nothing without a circuit, without a source, or without a
      solution. */
  function DcSpec(c: Option<Circuit>): Option<DcSolution>
    requires c.Some? ==> Solvable(c.value)
  {
    match c
    case None => None
    case Some(ckt) =>
      if ckt.vs == [] then None
      else match MnaSpec(ckt.netCount, ckt.ground, ckt.rs, ckt.vs)
        case None => None
        case Some(s) => Some(DcSolution(ckt, s.Vnet, s.Ivs))
  }

  /** A solution has a voltage for every net, 0 at ground, and a current
      for every source, each of them a wired battery. */
  lemma DcSpecShape(items: seq<Item>, nodes: seq<Node>, netOfNode: map<Id, nat>, base: nat, c: Circuit)
    requires NumbersIn(netOfNode, base) && base >= 1
    requires c == CircuitOf(items, nodes, netOfNode, base, false) && Solvable(c)
    ensures DcSpec(Some(c)).Some? ==>
              var sol := DcSpec(Some(c)).value;
              sol.circuit == c && c.vs != [] &&
              (forall k :: k in sol.Vnet <==> IsNetOf(k, c.netCount)) && sol.Vnet[c.ground] == 0.0 &&
              (forall id :: id in sol.Ivs ==>
                 exists i :: 0 <= i < |items| && items[i].kind.Battery? && items[i].id == id &&
                             Wired(nodes, netOfNode, items[i]))
  {
    StampItemsOk(items, nodes, netOfNode, base, false);
    MnaSpecShape(c.netCount, c.ground, c.rs, c.vs);
  }

  /** `solveNormalDC()`. */
  method SolveNormalDC(items: seq<Item>, nodes: seq<Node>, wires: seq<Wire>)
    returns (sol: Option<DcSolution>, ghost c: Option<Circuit>, ghost nets: seq<seq<Id>>)
    ensures BuiltBy(items, nodes, wires, false, c, nets)
    ensures sol == DcSpec(c)
  {
    var built;
    built, nets := BuildCircuit(items, nodes, wires, false);
    c := built;
    if built.None? {
      return None, c, nets;
    }
    var ckt := built.value;
    if |ckt.vs| == 0 {
      return None, c, nets;
    }
    var solved := SolveMna(ckt.netCount, ckt.ground, ckt.rs, ckt.vs);
    if solved.None? {
      return None, c, nets;
    }
    sol := Some(DcSolution(ckt, solved.value.Vnet, solved.value.Ivs));
  }
}
