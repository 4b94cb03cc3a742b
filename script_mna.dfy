/** `solveLinear` and `solveMNA` of the standalone script (app.js lines
    1087-1175).

    Nets are numbered from 1. The unknowns are the nets other than ground,
    in increasing order (`nets`), followed by one current per voltage
    source. Elimination is the one of `Elimination`, with factors below
    1e-12 skipped. Voltages come back as a map from net to voltage (ground
    at 0) and source currents as a map from source id. */
module ScriptMna {
  import opened Common
  import opened Elimination
  import opened Stamps
  import MnaSolver

  /** A resistor `{id, a, b, R}` between two nets. */
  datatype Resistor = Resistor(id: Id, a: nat, b: nat, R: real)

  /** A voltage source `{id, a, b, V}` forcing `V(a) - V(b) = V`. */
  datatype VoltageSource = VoltageSource(id: Id, a: nat, b: nat, V: real)

  /** `{ Vnet, Ivs }`. */
  datatype Solved = Solved(Vnet: map<nat, real>, Ivs: map<Id, real>)

  /** The smallest resistance stamped: `Math.max(1e-12, R)`. */
  const MinR: real := 0.000000000001

  predicate IsNetOf(k: nat, netCount: nat) {
    1 <= k <= netCount
  }

  /** Ground and every terminal are nets of the circuit. */
  predicate WellFormed(netCount: nat, ground: nat, rs: seq<Resistor>, vs: seq<VoltageSource>) {
    IsNetOf(ground, netCount) &&
    (forall k :: 0 <= k < |rs| ==> IsNetOf(rs[k].a, netCount) && IsNetOf(rs[k].b, netCount)) &&
    (forall k :: 0 <= k < |vs| ==> IsNetOf(vs[k].a, netCount) && IsNetOf(vs[k].b, netCount))
  }

  /** The list `nets` built by the first loop of `solveMNA`: 1 to
      `netCount` in order, ground left out. */
  function NetList(netCount: nat, ground: nat): seq<nat>
    decreases netCount
  {
    if netCount == 0 then []
    else NetList(netCount - 1, ground) + (if netCount == ground then [] else [netCount])
  }

  /** `idxOf(netId)`: -1 for ground, otherwise the position of the net in
      `nets`. */
  function IdxOf(ground: nat, net: nat): int {
    MnaSolver.IdxNode(ground as int - 1, net as int - 1)
  }

  /** `nets` holds every net but ground once, in order, and the position
      of each is `idxOf`: the unknown of `nets[i]` is `i`. */
  lemma {:induction false} NetListIndex(netCount: nat, ground: nat)
    requires IsNetOf(ground, netCount)
    ensures |NetList(netCount, ground)| == netCount - 1
    ensures forall i :: 0 <= i < netCount - 1 ==>
              IsNetOf(NetList(netCount, ground)[i], netCount) && NetList(netCount, ground)[i] != ground &&
              IdxOf(ground, NetList(netCount, ground)[i]) == i
    decreases netCount
  {
    if netCount == ground {
      BelowGround(netCount - 1, ground);
    } else {
      NetListIndex(netCount - 1, ground);
      var L := NetList(netCount, ground);
      assert L == NetList(netCount - 1, ground) + [netCount];
    }
  }

  /** Below ground the list is just 1 to `n`. */
  lemma {:induction false} BelowGround(n: nat, ground: nat)
    requires n < ground
    ensures NetList(n, ground) == seq(n, i requires 0 <= i < n => i + 1)
    decreases n
  {
    if n > 0 {
      BelowGround(n - 1, ground);
    }
  }

  /** Every net but ground has its unknown among the `netCount - 1` node
      unknowns, and ground has none. */
  lemma IdxOfInRange(netCount: nat, ground: nat, k: nat)
    requires IsNetOf(ground, netCount) && IsNetOf(k, netCount)
    ensures -1 <= IdxOf(ground, k) < netCount - 1
    ensures IdxOf(ground, k) == -1 <==> k == ground
  {
  }

  /** `stampG(r.a, r.b, 1 / Math.max(1e-12, R))` for every resistor. */
  function Conductors(ground: nat, rs: seq<Resistor>): (gs: seq<Conductor>)
    ensures |gs| == |rs|
    ensures forall k :: 0 <= k < |rs| ==>
              gs[k] == Conductor(IdxOf(ground, rs[k].a), IdxOf(ground, rs[k].b), 1.0 / Max(MinR, rs[k].R))
  {
    seq(|rs|, k requires 0 <= k < |rs| =>
      Conductor(IdxOf(ground, rs[k].a), IdxOf(ground, rs[k].b), 1.0 / Max(MinR, rs[k].R)))
  }

  /** The `±1` stamps and `z[row] = V` of every voltage source. */
  function Sources(ground: nat, vs: seq<VoltageSource>): (ss: seq<Source>)
    ensures |ss| == |vs|
    ensures forall k :: 0 <= k < |vs| ==> ss[k] == Source(IdxOf(ground, vs[k].a), IdxOf(ground, vs[k].b), vs[k].V)
  {
    seq(|vs|, k requires 0 <= k < |vs| => Source(IdxOf(ground, vs[k].a), IdxOf(ground, vs[k].b), vs[k].V))
  }

  lemma MappedInRange(netCount: nat, ground: nat, rs: seq<Resistor>, vs: seq<VoltageSource>)
    requires WellFormed(netCount, ground, rs, vs)
    ensures ConductorsIn(Conductors(ground, rs), netCount - 1)
    ensures SourcesIn(Sources(ground, vs), netCount - 1)
    ensures InjectionsIn([], netCount - 1 + |vs|)
  {
    forall k | 0 <= k < |rs| ensures InRange(Conductors(ground, rs)[k].a, netCount - 1) && InRange(Conductors(ground, rs)[k].b, netCount - 1) {
      IdxOfInRange(netCount, ground, rs[k].a);
      IdxOfInRange(netCount, ground, rs[k].b);
    }
    forall k | 0 <= k < |vs| ensures InRange(Sources(ground, vs)[k].a, netCount - 1) && InRange(Sources(ground, vs)[k].b, netCount - 1) {
      IdxOfInRange(netCount, ground, vs[k].a);
      IdxOfInRange(netCount, ground, vs[k].b);
    }
  }

  /** `Vnet`: ground at 0 and every other net the value of its unknown. */
  function VoltageMap(netCount: nat, ground: nat, x: seq<real>): (Vnet: map<nat, real>)
    requires IsNetOf(ground, netCount) && |x| >= netCount - 1
    ensures forall k :: k in Vnet <==> IsNetOf(k, netCount)
    ensures Vnet[ground] == 0.0
  {
    map k | 1 <= k <= netCount :: if k == ground then 0.0 else x[IdxOf(ground, k)]
  }

  /** `Ivs`: source `k` maps to unknown `n + k`; a later source with the
      same id overwrites an earlier one. */
  function CurrentMap(vs: seq<VoltageSource>, cur: seq<real>): (Ivs: map<Id, real>)
    requires |cur| == |vs|
    ensures Ivs.Keys == set k | 0 <= k < |vs| :: vs[k].id
    decreases |vs|
  {
    if vs == [] then map[]
    else CurrentMap(vs[..|vs| - 1], cur[..|vs| - 1])[vs[|vs| - 1].id := cur[|vs| - 1]]
  }

  /** The current recorded for an id is that of the last source with it. */
  lemma {:induction false} CurrentMapLast(vs: seq<VoltageSource>, cur: seq<real>, k: nat)
    requires |cur| == |vs| && k < |vs|
    requires forall j :: k < j < |vs| ==> vs[j].id != vs[k].id
    ensures vs[k].id in CurrentMap(vs, cur) && CurrentMap(vs, cur)[vs[k].id] == cur[k]
    decreases |vs|
  {
    if k < |vs| - 1 {
      CurrentMapLast(vs[..|vs| - 1], cur[..|vs| - 1], k);
    }
  }

  /** What `solveMNA` returns: `None` for `null` (a pivot below 1e-12). */
  function MnaSpec(netCount: nat, ground: nat, rs: seq<Resistor>, vs: seq<VoltageSource>): Option<Solved>
    requires WellFormed(netCount, ground, rs, vs)
  {
    MappedInRange(netCount, ground, rs, vs);
    var n := netCount - 1;
    var A := Assemble(n, Conductors(ground, rs), Sources(ground, vs));
    var z := MnaSolver.Rhs(n, [], Sources(ground, vs));
    match SolveSpec(A, z, true)
    case None => None
    case Some(x) => Some(Solved(VoltageMap(netCount, ground, x), CurrentMap(vs, x[n..])))
  }

  /** A solution knows the voltage of every net, 0 at ground, and the
      current of every voltage source id. */
  lemma MnaSpecShape(netCount: nat, ground: nat, rs: seq<Resistor>, vs: seq<VoltageSource>)
    requires WellFormed(netCount, ground, rs, vs)
    ensures MnaSpec(netCount, ground, rs, vs).Some? ==>
              var s := MnaSpec(netCount, ground, rs, vs).value;
              (forall k :: k in s.Vnet <==> IsNetOf(k, netCount)) && s.Vnet[ground] == 0.0 &&
              s.Ivs.Keys == (set k | 0 <= k < |vs| :: vs[k].id)
  {
    MappedInRange(netCount, ground, rs, vs);
    var n := netCount - 1;
    var A := Assemble(n, Conductors(ground, rs), Sources(ground, vs));
    var z := MnaSolver.Rhs(n, [], Sources(ground, vs));
    match SolveSpec(A, z, true)
    case None =>
    case Some(x) =>
      assert |x| == |A| by { SolvedLength(A, z); }
  }

  lemma SolvedLength(A: Matrix, b: seq<real>)
    requires |b| == |A|
    requires forall r :: 0 <= r < |A| ==> |A[r]| == |A|
    ensures SolveSpec(A, b, true).Some? ==> |SolveSpec(A, b, true).value| == |A|
  {
  }

  /** The one-source test circuit of the ohmmeter: the current of the
      test source is the last unknown. */
  lemma SingleSourceCurrent(netCount: nat, ground: nat, rs: seq<Resistor>, s: VoltageSource)
    requires WellFormed(netCount, ground, rs, [s])
    requires MnaSpec(netCount, ground, rs, [s]).Some?
    ensures MnaSpec(netCount, ground, rs, [s]).value.Ivs == map[s.id := MnaSpec(netCount, ground, rs, [s]).value.Ivs[s.id]]
  {
    MnaSpecShape(netCount, ground, rs, [s]);
  }

  /** `solveLinear(A, b)` of the script: factors below 1e-12 are skipped. */
  method SolveLinear(A: array<seq<real>>, b: array<real>) returns (x: Option<seq<real>>)
    requires b.Length == A.Length
    requires forall r :: 0 <= r < A.Length ==> |A[r]| == A.Length
    ensures x == SolveSpec(A[..], b[..], true)
    ensures x.Some? ==> |x.value| == A.Length
  {
    x := Solve(A, b, true);
  }

  /** Lines 1114-1115: the nets other than ground, in order. */
  method ListNets(netCount: nat, ground: nat) returns (nets: seq<nat>)
    ensures nets == NetList(netCount, ground)
  {
    nets := [];
    for k := 1 to netCount + 1
      invariant nets == NetList(k - 1, ground)
    {
      if k != ground {
        nets := nets + [k];
      }
    }
  }

  /** Lines 1167-1169. */
  method FillVoltages(netCount: nat, ground: nat, nets: seq<nat>, x: seq<real>) returns (Vnet: map<nat, real>)
    requires IsNetOf(ground, netCount) && |x| >= netCount - 1
    requires nets == NetList(netCount, ground)
    ensures Vnet == VoltageMap(netCount, ground, x)
  {
    NetListIndex(netCount, ground);
    Vnet := map[ground := 0.0];
    for i := 0 to |nets|
      invariant Vnet.Keys == {ground} + (set j | 0 <= j < i :: nets[j])
      invariant Vnet[ground] == 0.0
      invariant forall j :: 0 <= j < i ==> Vnet[nets[j]] == x[j]
    {
      Vnet := Vnet[nets[i] := x[i]];
    }
    forall k | 1 <= k <= netCount && k != ground
      ensures k in Vnet && Vnet[k] == x[IdxOf(ground, k)]
    {
      IdxOfInRange(netCount, ground, k);
      var j := IdxOf(ground, k);
      assert nets[j] == k by { NetAt(netCount, ground, k); }
    }
    forall k | k in Vnet ensures 1 <= k <= netCount {
    }
  }

  /** The net at position `idxOf(k)` of `nets` is `k`. */
  lemma NetAt(netCount: nat, ground: nat, k: nat)
    requires IsNetOf(ground, netCount) && IsNetOf(k, netCount) && k != ground
    ensures 0 <= IdxOf(ground, k) < |NetList(netCount, ground)|
    ensures NetList(netCount, ground)[IdxOf(ground, k)] == k
  {
    NetListIndex(netCount, ground);
    var j := IdxOf(ground, k);
    var L := NetList(netCount, ground);
    assert IdxOf(ground, L[j]) == j;
    MnaSolver.IdxNodeBijection(netCount, ground as int - 1);
  }

  /** Lines 1171-1172. */
  method FillCurrents(vs: seq<VoltageSource>, cur: seq<real>) returns (Ivs: map<Id, real>)
    requires |cur| == |vs|
    ensures Ivs == CurrentMap(vs, cur)
  {
    Ivs := map[];
    for k := 0 to |vs|
      invariant Ivs == CurrentMap(vs[..k], cur[..k])
    {
      assert vs[..k + 1][..k] == vs[..k] && cur[..k + 1][..k] == cur[..k];
      Ivs := Ivs[vs[k].id := cur[k]];
    }
    assert vs[..|vs|] == vs && cur[..|vs|] == cur;
  }

  /** `solveMNA({ resistors, vsources, groundNet, netCount })`. */
  method SolveMna(netCount: nat, ground: nat, rs: seq<Resistor>, vs: seq<VoltageSource>) returns (res: Option<Solved>)
    requires WellFormed(netCount, ground, rs, vs)
    ensures res == MnaSpec(netCount, ground, rs, vs)
  {
    var nets := ListNets(netCount, ground);
    NetListIndex(netCount, ground);
    var n := |nets|;
    MappedInRange(netCount, ground, rs, vs);
    var A, z := MnaSolver.BuildSystem(n, Conductors(ground, rs), [], Sources(ground, vs));
    var x := SolveLinear(A, z);
    if x == None {
      return None;
    }
    var Vnet := FillVoltages(netCount, ground, nets, x.value);
    var Ivs := FillCurrents(vs, x.value[n..]);
    res := Some(Solved(Vnet, Ivs));
  }
}
