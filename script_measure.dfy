/** Readings of the standalone script (app.js lines 1254-1293 and
    1323-1378): the voltage across an item, the current through an item
    seen as a resistor, the ohmmeter's equivalent resistance by a 1 V test
    source, and the refresh of meter displays and bulb brightness after a
    solve. */
module ScriptMeasure {
  import opened Common
  import opened Components
  import opened Utils
  import opened ScriptTopology
  import opened ScriptNets
  import opened ScriptMna
  import opened ScriptCircuit
  import ScriptFormat

  /** `map.get(k) ?? 0`. */
  function GetOr0(m: map<nat, real>, k: nat): real {
    if k in m then m[k] else 0.0
  }

  /** `voltageAcross(sol, itemId)`: `V(R) - V(L)` of the item's terminal
      nets, `None` when one of them has no net. */
  function VoltageAcross(nodes: seq<Node>, sol: DcSolution, itemId: Id): (dv: Option<real>)
    ensures dv.Some? <==> Present(NetOfTerminal(nodes, sol.circuit.netOfNode, itemId, L)) &&
                          Present(NetOfTerminal(nodes, sol.circuit.netOfNode, itemId, R))
  {
    var nL := NetOfTerminal(nodes, sol.circuit.netOfNode, itemId, L);
    var nR := NetOfTerminal(nodes, sol.circuit.netOfNode, itemId, R);
    if !Present(nL) || !Present(nR) then None
    else Some(GetOr0(sol.Vnet, nR.value) - GetOr0(sol.Vnet, nL.value))
  }

  /** A solution has a voltage for every net and its net numbers lie in
      `1 .. netCount`, as `ScriptCircuit.DcSpecShape` shows for every
      solution `solveNormalDC` returns. */
  ghost predicate Covers(sol: DcSolution) {
    NumbersIn(sol.circuit.netOfNode, sol.circuit.netCount) &&
    forall k :: k in sol.Vnet <==> IsNetOf(k, sol.circuit.netCount)
  }

  /** With both terminals on nets the reading is the difference of the two
      net voltages: 0 across one net, and the plus net's voltage when the
      minus terminal is on ground. */
  lemma VoltageAcrossReads(nodes: seq<Node>, sol: DcSolution, itemId: Id)
    requires Covers(sol) && sol.circuit.ground in sol.Vnet && sol.Vnet[sol.circuit.ground] == 0.0
    ensures var nL := NetOfTerminal(nodes, sol.circuit.netOfNode, itemId, L);
            var nR := NetOfTerminal(nodes, sol.circuit.netOfNode, itemId, R);
            Present(nL) && Present(nR) ==>
              nL.value in sol.Vnet && nR.value in sol.Vnet &&
              VoltageAcross(nodes, sol, itemId) == Some(sol.Vnet[nR.value] - sol.Vnet[nL.value]) &&
              (nL.value == nR.value ==> VoltageAcross(nodes, sol, itemId) == Some(0.0)) &&
              (nL.value == sol.circuit.ground ==> VoltageAcross(nodes, sol, itemId) == Some(sol.Vnet[nR.value]))
  {
    TerminalNetIn(nodes, sol.circuit.netOfNode, sol.circuit.netCount, itemId, L);
    TerminalNetIn(nodes, sol.circuit.netOfNode, sol.circuit.netCount, itemId, R);
  }

  /** Every solution of `solveNormalDC` covers its nets. */
  lemma DcSolutionCovers(items: seq<Item>, nodes: seq<Node>, wires: seq<Wire>, c: Option<Circuit>, nets: seq<seq<Id>>)
    requires BuiltBy(items, nodes, wires, false, c, nets)
    ensures DcSpec(c).Some? ==>
              Covers(DcSpec(c).value) &&
              DcSpec(c).value.circuit.ground in DcSpec(c).value.Vnet &&
              DcSpec(c).value.Vnet[DcSpec(c).value.circuit.ground] == 0.0
  {
    if c.Some? {
      MnaSpecShape(c.value.netCount, c.value.ground, c.value.rs, c.value.vs);
    }
  }

  /** The floor of the resistance a current is computed through. */
  const MinR: real := 0.000000000001

  /** `currentThroughAsResistor(sol, itemId, R)`: Ohm's law on the
      voltage across the item. */
  function CurrentThrough(nodes: seq<Node>, sol: DcSolution, itemId: Id, R: real): (I: Option<real>)
    ensures I.Some? <==> VoltageAcross(nodes, sol, itemId).Some?
    ensures I.Some? ==> I.value * Max(MinR, R) == VoltageAcross(nodes, sol, itemId).value
  {
    match VoltageAcross(nodes, sol, itemId)
    case None => None
    case Some(dv) => Some(dv / Max(MinR, R))
  }

  /** The id of the ohmmeter's test source. */
  const TestId: Id := "__test__"

  /** The smallest test current that gives a reading. */
  const MinTestCurrent: real := 0.000000000000001

  /** A net that `netOfNode` gives a terminal lies in `1 .. netCount`. */
  lemma TerminalNetIn(nodes: seq<Node>, netOfNode: map<Id, nat>, netCount: nat, itemId: Id, side: Side)
    requires NumbersIn(netOfNode, netCount)
    ensures NetOfTerminal(nodes, netOfNode, itemId, side).Some? ==>
              IsNetOf(NetOfTerminal(nodes, netOfNode, itemId, side).value, netCount)
  {
  }

  /** The test circuit of the ohmmeter: the circuit with sources off and
      one 1 V source across the meter, plus to minus. */
  function TestSolution(c: Circuit, nL: nat, nR: nat): Option<Solved>
    requires Solvable(c) && IsNetOf(nL, c.netCount) && IsNetOf(nR, c.netCount)
  {
    MnaSpec(c.netCount, c.ground, c.rs, [VoltageSource(TestId, nR, nL, 1.0)])
  }

  /** Lines 1290-1292: no reading without a test current or with one
      below 1e-15 A, else `|1 / I|`. */
  function Reciprocal(s: Option<Solved>): (r: Option<real>)
    ensures r.Some? <==> s.Some? && TestId in s.value.Ivs && Abs(s.value.Ivs[TestId]) >= MinTestCurrent
    ensures r.Some? ==> 0.0 < r.value <= 1000000000000000.0 && r.value * Abs(s.value.Ivs[TestId]) == 1.0
  {
    match s
    case None => None
    case Some(sv) =>
      if TestId !in sv.Ivs || Abs(sv.Ivs[TestId]) < MinTestCurrent then None
      else
        InverseBound(sv.Ivs[TestId]);
        Some(Abs(1.0 / sv.Ivs[TestId]))
  }

  /** What `equivalentResistanceForOhmmeter(ohmId)` returns for the
      circuit built with sources disabled. */
  function OhmSpec(base: Option<Circuit>, nodes: seq<Node>, ohmId: Id): (r: Option<real>)
    requires base.Some? ==> Solvable(base.value)
  {
    match base
    case None => None
    case Some(c) =>
      var nL := NetOfTerminal(nodes, c.netOfNode, ohmId, L);
      var nR := NetOfTerminal(nodes, c.netOfNode, ohmId, R);
      if !Present(nL) || !Present(nR) then None
      else if nL.value == nR.value then Some(0.0)
      else
        TerminalNetIn(nodes, c.netOfNode, c.netCount, ohmId, L);
        TerminalNetIn(nodes, c.netOfNode, c.netCount, ohmId, R);
        Reciprocal(TestSolution(c, nL.value, nR.value))
  }

  /** No circuit or a terminal without a net gives no reading, terminals
      on one net read 0, and across two nets the reading is that of the
      test current (`Reciprocal`): a positive resistance of at most 1e15
      that times the current's magnitude gives 1 V. */
  lemma OhmSpecReads(base: Option<Circuit>, nodes: seq<Node>, ohmId: Id)
    requires base.Some? ==> Solvable(base.value)
    ensures base.None? ==> OhmSpec(base, nodes, ohmId).None?
    ensures base.Some? ==>
              var c := base.value;
              var nL := NetOfTerminal(nodes, c.netOfNode, ohmId, L);
              var nR := NetOfTerminal(nodes, c.netOfNode, ohmId, R);
              (!Present(nL) || !Present(nR) ==> OhmSpec(base, nodes, ohmId).None?) &&
              (Present(nL) && Present(nR) && nL.value == nR.value ==> OhmSpec(base, nodes, ohmId) == Some(0.0)) &&
              (Present(nL) && Present(nR) && nL.value != nR.value ==>
                 IsNetOf(nL.value, c.netCount) && IsNetOf(nR.value, c.netCount) &&
                 OhmSpec(base, nodes, ohmId) == Reciprocal(TestSolution(c, nL.value, nR.value)))
  {
    if base.Some? {
      TerminalNetIn(nodes, base.value.netOfNode, base.value.netCount, ohmId, L);
      TerminalNetIn(nodes, base.value.netOfNode, base.value.netCount, ohmId, R);
    }
  }

  /** A test solution has a current for the test source. */
  lemma TestCurrentKnown(c: Circuit, nL: nat, nR: nat)
    requires Solvable(c) && IsNetOf(nL, c.netCount) && IsNetOf(nR, c.netCount)
    ensures TestSolution(c, nL, nR).Some? ==> TestId in TestSolution(c, nL, nR).value.Ivs
  {
    var vs := [VoltageSource(TestId, nR, nL, 1.0)];
    MnaSpecShape(c.netCount, c.ground, c.rs, vs);
    assert vs[0].id == TestId;
  }

  /** `|1 / I|` for `|I| >= 1e-15` is positive, at most 1e15, and the
      inverse of `|I|`. */
  lemma InverseBound(I: real)
    requires Abs(I) >= MinTestCurrent
    ensures 0.0 < Abs(1.0 / I) <= 1000000000000000.0
    ensures Abs(1.0 / I) * Abs(I) == 1.0
  {
    var a := Abs(I);
    assert Abs(1.0 / I) == 1.0 / a by {
      if I < 0.0 {
        assert 1.0 / I == -(1.0 / a);
      }
    }
    assert 1.0 / a <= 1.0 / MinTestCurrent;
  }

  /** `equivalentResistanceForOhmmeter(ohmId)`. */
  method EquivalentResistance(items: seq<Item>, nodes: seq<Node>, wires: seq<Wire>, ohmId: Id)
    returns (req: Option<real>, ghost base: Option<Circuit>, ghost nets: seq<seq<Id>>)
    ensures BuiltBy(items, nodes, wires, true, base, nets)
    ensures req == OhmSpec(base, nodes, ohmId)
  {
    var built;
    built, nets := BuildCircuit(items, nodes, wires, true);
    base := built;
    if built.None? {
      return None, base, nets;
    }
    var c := built.value;
    var nL := NetOfTerminal(nodes, c.netOfNode, ohmId, L);
    var nR := NetOfTerminal(nodes, c.netOfNode, ohmId, R);
    if !Present(nL) || !Present(nR) {
      return None, base, nets;
    }
    if nL.value == nR.value {
      return Some(0.0), base, nets;
    }
    TerminalNetIn(nodes, c.netOfNode, c.netCount, ohmId, L);
    TerminalNetIn(nodes, c.netOfNode, c.netCount, ohmId, R);
    var solved := SolveMna(c.netCount, c.ground, c.rs, [VoltageSource(TestId, nR.value, nL.value, 1.0)]);
    if solved.None? || TestId !in solved.value.Ivs {
      return None, base, nets;
    }
    var I := solved.value.Ivs[TestId];
    if Abs(I) < MinTestCurrent {
      return None, base, nets;
    }
    req := Some(Abs(1.0 / I));
  }

  /** The power at which a bulb is fully lit. */
  const PRef: real := 1.5

  /** The smallest change of brightness that is applied. */
  const Hysteresis: real := 0.02

  /** The floor of a bulb's resistance. */
  const MinBulbR: real := 0.000000001

  /** The resistance a bulb is taken to have, `max(1e-9, R || 30)`. */
  function BulbR(it: Item): (r: real)
    ensures r >= MinBulbR
  {
    Max(MinBulbR, ScriptCircuit.OrElse(it.props.R, 30.0))
  }

  /** `clamp(P / Pref, 0, 1)`: for a power `P >= 0`, the share of 1.5 W
      below it and 1 from there on. */
  function Brightness(P: real): (br: real)
    requires P >= 0.0
    ensures 0.0 <= br <= 1.0
    ensures P >= PRef ==> br == 1.0
    ensures P < PRef ==> br == P / PRef
  {
    Clamp(P / PRef, 0.0, 1.0)
  }

  /** The dissipated power `dv * dv / R`: never negative, and `P * R` is
      the squared voltage. */
  function Power(dv: real, R: real): (P: real)
    requires R > 0.0
    ensures P >= 0.0 && P * R == dv * dv
  {
    assert dv * dv >= 0.0;
    dv * dv / R
  }

  /** Lines 1362-1371: the brightness a bulb should show, 0 without a
      solution or without a voltage across it. */
  function BulbTarget(nodes: seq<Node>, sol: Option<DcSolution>, it: Item): (br: real)
    ensures 0.0 <= br <= 1.0
    ensures sol.None? || VoltageAcross(nodes, sol.value, it.id).None? ==> br == 0.0
    ensures sol.Some? && VoltageAcross(nodes, sol.value, it.id).Some? ==>
              var P := Power(VoltageAcross(nodes, sol.value, it.id).value, BulbR(it));
              (P >= PRef ==> br == 1.0) && (P < PRef ==> br * PRef == P)
  {
    if sol.None? then 0.0
    else
      match VoltageAcross(nodes, sol.value, it.id)
      case None => 0.0
      case Some(dv) => Brightness(Power(dv, BulbR(it)))
  }

  /** Lines 1372-1375: the brightness is replaced only when it is off by
      more than 0.02. */
  function UpdateBulb(it: Item, br: real): (r: Item)
  {
    if Abs(br - it.props.brightness.GetOr(0.0)) > Hysteresis then it.(props := it.props.(brightness := Some(br)))
    else it
  }

  /** After the update the shown brightness is within 0.02 of the target,
      only the brightness may have changed, and a second update with the
      same target changes nothing. */
  lemma UpdateBulbTracks(it: Item, br: real)
    ensures Abs(br - UpdateBulb(it, br).props.brightness.GetOr(0.0)) <= Hysteresis
    ensures UpdateBulb(it, br).(props := it.props) == it
    ensures UpdateBulb(it, br).props.(brightness := it.props.brightness) == it.props
    ensures UpdateBulb(UpdateBulb(it, br), br) == UpdateBulb(it, br)
  {
  }

  /** `disp !== it.display` guards the assignment, so the item ends up
      showing `disp` either way. */
  function ShowText(it: Item, disp: string): (r: Item)
    ensures r == it.(props := it.props.(display := Some(disp)))
  {
    if Some(disp) != it.props.display then it.(props := it.props.(display := Some(disp))) else it
  }

  /** The refreshed state of an item other than an ohmmeter (lines
      1328-1350 and 1361-1376). */
  function Refresh(nodes: seq<Node>, sol: Option<DcSolution>, it: Item, toFixed: (real, nat) -> string): Item {
    match it.kind
    case Voltmeter =>
      var dv := if sol.None? then None else VoltageAcross(nodes, sol.value, it.id);
      ShowText(it, if dv.None? then Dash else ScriptFormat.FormatSI(dv.value, "V", toFixed))
    case Ammeter =>
      var I := if sol.None? then None else CurrentThrough(nodes, sol.value, it.id, 0.000001);
      ShowText(it, if I.None? then Dash else ScriptFormat.FormatSI(I.value, "A", toFixed))
    case Bulb => UpdateBulb(it, BulbTarget(nodes, sol, it))
    case _ => it
  }

  /** The refresh changes only meter displays and bulb brightness: ids,
      kinds, positions and every other field stay, and a voltmeter or an
      ammeter without a solution shows "—". */
  lemma RefreshKeeps(nodes: seq<Node>, sol: Option<DcSolution>, it: Item, toFixed: (real, nat) -> string)
    ensures var r := Refresh(nodes, sol, it, toFixed);
            r.id == it.id && r.kind == it.kind && r.x == it.x && r.y == it.y &&
            r.props.(display := it.props.display, brightness := it.props.brightness) == it.props &&
            (!it.kind.Voltmeter? && !it.kind.Ammeter? ==> r.props.display == it.props.display) &&
            (!it.kind.Bulb? ==> r.props.brightness == it.props.brightness) &&
            ((it.kind.Voltmeter? || it.kind.Ammeter?) && sol.None? ==> r.props.display == Some(Dash))
  {
  }

  /** The ohmmeter's display for a reading. */
  function OhmText(req: Option<real>, toFixed: (real, nat) -> string): string {
    if req.None? then Dash else ScriptFormat.FormatSI(req.value, "Ω", toFixed)
  }

  /** `it'` is `it` after the refresh: `Refresh` for all but ohmmeters; an
      ohmmeter shows the reading of a circuit `buildCircuit` builds with
      sources off, and nothing else of it changes. */
  ghost predicate Refreshed(items: seq<Item>, nodes: seq<Node>, wires: seq<Wire>, sol: Option<DcSolution>,
                            toFixed: (real, nat) -> string, it: Item, it': Item) {
    if it.kind.Ohmmeter? then
      exists base: Option<Circuit>, nets: seq<seq<Id>> ::
        BuiltBy(items, nodes, wires, true, base, nets) &&
        it' == ShowText(it, OhmText(OhmSpec(base, nodes, it.id), toFixed))
    else it' == Refresh(nodes, sol, it, toFixed)
  }

  /** One pass of the item loop of `solveAndUpdateUI`. */
  method RefreshOne(items: seq<Item>, nodes: seq<Node>, wires: seq<Wire>, sol: Option<DcSolution>,
                    toFixed: (real, nat) -> string, it: Item) returns (it': Item)
    ensures Refreshed(items, nodes, wires, sol, toFixed, it, it')
  {
    if it.kind.Ohmmeter? {
      var req, base, nets := EquivalentResistance(items, nodes, wires, it.id);
      it' := ShowText(it, OhmText(req, toFixed));
    } else {
      it' := Refresh(nodes, sol, it, toFixed);
    }
  }

  /** What `solveAndUpdateUI` leaves behind: the solution of the circuit
      built from the wiring, and every item refreshed against it. */
  ghost predicate SolvedAndUpdated(items: seq<Item>, nodes: seq<Node>, wires: seq<Wire>, toFixed: (real, nat) -> string,
                                   sol: Option<DcSolution>, items': seq<Item>, c: Option<Circuit>, nets: seq<seq<Id>>) {
    BuiltBy(items, nodes, wires, false, c, nets) && sol == DcSpec(c) &&
    |items'| == |items| &&
    forall i :: 0 <= i < |items| ==> Refreshed(items, nodes, wires, sol, toFixed, items[i], items'[i])
  }

  /** `solveAndUpdateUI()`: solve, record the solution, then refresh every
      item in order. */
  method SolveAndUpdate(items: seq<Item>, nodes: seq<Node>, wires: seq<Wire>, toFixed: (real, nat) -> string)
    returns (sol: Option<DcSolution>, items': seq<Item>, ghost c: Option<Circuit>, ghost nets: seq<seq<Id>>)
    ensures SolvedAndUpdated(items, nodes, wires, toFixed, sol, items', c, nets)
  {
    sol, c, nets := SolveNormalDC(items, nodes, wires);
    items' := items;
    for i := 0 to |items|
      invariant |items'| == |items|
      invariant forall j :: 0 <= j < i ==> Refreshed(items, nodes, wires, sol, toFixed, items[j], items'[j])
    {
      var it' := RefreshOne(items, nodes, wires, sol, toFixed, items[i]);
      items' := items'[i := it'];
    }
  }
}
