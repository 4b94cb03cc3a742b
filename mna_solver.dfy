/** The React port's linear solver and MNA front end
    (my-app/src/core/mnaSolver.js).

    `solveMNA` numbers the unknowns by removing the ground node from the
    node numbering (`idxNode`), stamps resistors, current sources and
    voltage sources, solves by elimination without skipping tiny factors,
    and unpacks node voltages (ground at 0) and source currents. */
module MnaSolver {
  import opened Common
  import opened Elimination
  import opened Stamps

  datatype Resistor = Resistor(a: int, b: int, R: real)
  datatype CurrentSource = CurrentSource(a: int, b: int, I: real)
  datatype VoltageSource = VoltageSource(a: int, b: int, V: real)

  /** The outcome of `solveMNA`: a thrown `RangeError` (the matrix
      dimension is negative), `null` (singular), or the solution. */
  datatype MnaResult =
    | RangeError
    | NoSolution
    | Solution(V: seq<real>, Ivs: seq<real>)

  /** `solveLinear(A, b)` of the React port: no factor is skipped. */
  method SolveLinear(A: array<seq<real>>, b: array<real>) returns (x: Option<seq<real>>)
    requires b.Length == A.Length
    requires forall r :: 0 <= r < A.Length ==> |A[r]| == A.Length
    ensures x == SolveSpec(A[..], b[..], false)
    ensures x.Some? ==> |x.value| == A.Length
  {
    x := Solve(A, b, false);
  }

  /** `idxNode`: ground becomes -1, the nodes below it keep their number
      and the nodes above it move down by one. */
  function IdxNode(ground: int, n: int): int {
    if n == ground then -1 else if n < ground then n else n - 1
  }

  /** The node whose unknown is `j` (the inverse of `IdxNode`). */
  function NodeOfIdx(ground: int, j: int): int {
    if j < ground then j else j + 1
  }

  /** `idxNode` maps the nodes other than ground one to one onto the
      unknowns `0 .. nodeCount - 2`, and ground to -1. */
  lemma IdxNodeBijection(nodeCount: nat, ground: int)
    requires 0 <= ground < nodeCount
    ensures IdxNode(ground, ground) == -1
    ensures forall n :: 0 <= n < nodeCount && n != ground ==>
              0 <= IdxNode(ground, n) < nodeCount - 1 && NodeOfIdx(ground, IdxNode(ground, n)) == n
    ensures forall j :: 0 <= j < nodeCount - 1 ==>
              0 <= NodeOfIdx(ground, j) < nodeCount && NodeOfIdx(ground, j) != ground &&
              IdxNode(ground, NodeOfIdx(ground, j)) == j
  {
  }

  /** The node numbers the source demands: every terminal names one of
      the `nodeCount` nodes, and ground is one of them. */
  predicate WellFormed(nodeCount: nat, ground: int, rs: seq<Resistor>, cs: seq<CurrentSource>, vs: seq<VoltageSource>) {
    (nodeCount > 0 ==> 0 <= ground < nodeCount) &&
    (forall k :: 0 <= k < |rs| ==> 0 <= rs[k].a < nodeCount && 0 <= rs[k].b < nodeCount && rs[k].R != 0.0) &&
    (forall k :: 0 <= k < |cs| ==> 0 <= cs[k].a < nodeCount && 0 <= cs[k].b < nodeCount) &&
    (forall k :: 0 <= k < |vs| ==> 0 <= vs[k].a < nodeCount && 0 <= vs[k].b < nodeCount)
  }

  /** Resistors as conductance stamps on unknowns: `g = 1 / R`. */
  function Conductors(ground: int, rs: seq<Resistor>): (gs: seq<Conductor>)
    requires forall k :: 0 <= k < |rs| ==> rs[k].R != 0.0
    ensures |gs| == |rs|
    ensures forall k :: 0 <= k < |rs| ==>
              gs[k] == Conductor(IdxNode(ground, rs[k].a), IdxNode(ground, rs[k].b), 1.0 / rs[k].R)
  {
    seq(|rs|, k requires 0 <= k < |rs| => Conductor(IdxNode(ground, rs[k].a), IdxNode(ground, rs[k].b), 1.0 / rs[k].R))
  }

  function Injections(ground: int, cs: seq<CurrentSource>): (js: seq<Injection>)
    ensures |js| == |cs|
    ensures forall k :: 0 <= k < |cs| ==> js[k] == Injection(IdxNode(ground, cs[k].a), IdxNode(ground, cs[k].b), cs[k].I)
  {
    seq(|cs|, k requires 0 <= k < |cs| => Injection(IdxNode(ground, cs[k].a), IdxNode(ground, cs[k].b), cs[k].I))
  }

  function Sources(ground: int, vs: seq<VoltageSource>): (ss: seq<Source>)
    ensures |ss| == |vs|
    ensures forall k :: 0 <= k < |vs| ==> ss[k] == Source(IdxNode(ground, vs[k].a), IdxNode(ground, vs[k].b), vs[k].V)
  {
    seq(|vs|, k requires 0 <= k < |vs| => Source(IdxNode(ground, vs[k].a), IdxNode(ground, vs[k].b), vs[k].V))
  }

  /** A voltage source needs a node, so a non-negative dimension means
      there is at least one node. */
  lemma SourcesNeedNodes(nodeCount: nat, ground: int, rs: seq<Resistor>, cs: seq<CurrentSource>, vs: seq<VoltageSource>)
    requires WellFormed(nodeCount, ground, rs, cs, vs)
    ensures |vs| > 0 ==> nodeCount > 0
  {
    if |vs| > 0 {
      assert 0 <= vs[0].a < nodeCount;
    }
  }

  lemma MappedInRange(nodeCount: nat, ground: int, rs: seq<Resistor>, cs: seq<CurrentSource>, vs: seq<VoltageSource>)
    requires WellFormed(nodeCount, ground, rs, cs, vs) && nodeCount - 1 + |vs| >= 0
    ensures nodeCount > 0
    ensures ConductorsIn(Conductors(ground, rs), nodeCount - 1)
    ensures InjectionsIn(Injections(ground, cs), nodeCount - 1 + |vs|)
    ensures SourcesIn(Sources(ground, vs), nodeCount - 1)
  {
    SourcesNeedNodes(nodeCount, ground, rs, cs, vs);
  }

  /** The right-hand side: current sources, then `z[N + k] = V`. */
  function Rhs(N: nat, js: seq<Injection>, ss: seq<Source>): (z: seq<real>)
    requires InjectionsIn(js, N + |ss|)
    ensures |z| == N + |ss|
  {
    SetSources(InjectAll(seq(N + |ss|, _ => 0.0), js), N, ss)
  }

  /** Node voltages from the solution: ground 0, every other node the
      value of its unknown. */
  function Unpack(nodeCount: nat, ground: int, x: seq<real>): (V: seq<real>)
    requires nodeCount > 0 && 0 <= ground < nodeCount && |x| >= nodeCount - 1
    ensures |V| == nodeCount
    ensures V[ground] == 0.0
    ensures forall j :: 0 <= j < nodeCount - 1 ==> V[NodeOfIdx(ground, j)] == x[j]
  {
    seq(nodeCount, n requires 0 <= n < nodeCount => if n == ground then 0.0 else x[IdxNode(ground, n)])
  }

  /** What `solveMNA` returns or throws. */
  function MnaSpec(nodeCount: nat, ground: int, rs: seq<Resistor>, cs: seq<CurrentSource>, vs: seq<VoltageSource>): MnaResult
    requires WellFormed(nodeCount, ground, rs, cs, vs)
  {
    if nodeCount - 1 + |vs| < 0 then RangeError
    else
      MappedInRange(nodeCount, ground, rs, cs, vs);
      var N := nodeCount - 1;
      var A := Assemble(N, Conductors(ground, rs), Sources(ground, vs));
      var z := Rhs(N, Injections(ground, cs), Sources(ground, vs));
      match SolveSpec(A, z, false)
      case None => NoSolution
      case Some(x) => Solution(Unpack(nodeCount, ground, x), x[N..])
  }

  /** Only an empty network throws; a solution has one voltage per node,
      0 at ground, and one current
      per voltage source. */
  lemma MnaSpecShape(nodeCount: nat, ground: int, rs: seq<Resistor>, cs: seq<CurrentSource>, vs: seq<VoltageSource>)
    requires WellFormed(nodeCount, ground, rs, cs, vs)
    ensures MnaSpec(nodeCount, ground, rs, cs, vs).RangeError? <==> nodeCount == 0
    ensures MnaSpec(nodeCount, ground, rs, cs, vs).Solution? ==>
              var res := MnaSpec(nodeCount, ground, rs, cs, vs);
              |res.V| == nodeCount && res.V[ground] == 0.0 && |res.Ivs| == |vs|
  {
    SourcesNeedNodes(nodeCount, ground, rs, cs, vs);
  }

  /** Lines 36-86: the zero matrix and right-hand side of dimension
      `N + |ss|`, stamped with conductances, current sources and voltage
      sources in that order. */
  method BuildSystem(N: nat, gs: seq<Conductor>, js: seq<Injection>, ss: seq<Source>)
    returns (A: array<seq<real>>, z: array<real>)
    requires ConductorsIn(gs, N) && SourcesIn(ss, N) && InjectionsIn(js, N + |ss|)
    ensures fresh(A) && fresh(z)
    ensures A[..] == Assemble(N, gs, ss)
    ensures z[..] == Rhs(N, js, ss)
  {
    var dim := N + |ss|;
    A := new seq<real>[dim](_ => seq(dim, _ => 0.0));
    z := new real[dim](_ => 0.0);
    assert A[..] == Zeros(dim);
    assert z[..] == seq(dim, _ => 0.0);
    StampConductorsInto(A, N, gs);
    InjectInto(z, js);
    StampSourcesInto(A, z, N, ss);
  }

  /** Lines 92-95: ground reads 0, every other node its unknown. */
  method UnpackInto(nodeCount: nat, ground: int, xs: seq<real>) returns (V: seq<real>)
    requires nodeCount > 0 && 0 <= ground < nodeCount && |xs| >= nodeCount - 1
    ensures V == Unpack(nodeCount, ground, xs)
  {
    var a := new real[nodeCount](_ => 0.0);
    for n := 0 to nodeCount
      invariant forall k :: 0 <= k < n ==> a[k] == if k == ground then 0.0 else xs[IdxNode(ground, k)]
    {
      if n == ground {
        a[n] := 0.0;
      } else {
        a[n] := xs[IdxNode(ground, n)];
      }
    }
    V := a[..];
  }

  /** `solveMNA` (lines 34-100). */
  method SolveMna(nodeCount: nat, ground: int, resistors: seq<Resistor>, currentSources: seq<CurrentSource>,
                  voltageSources: seq<VoltageSource>) returns (res: MnaResult)
    requires WellFormed(nodeCount, ground, resistors, currentSources, voltageSources)
    ensures res == MnaSpec(nodeCount, ground, resistors, currentSources, voltageSources)
  {
    var N := nodeCount - 1;
    var dim := N + |voltageSources|;
    if dim < 0 {
      return RangeError;
    }
    MappedInRange(nodeCount, ground, resistors, currentSources, voltageSources);
    var A, z := BuildSystem(N, Conductors(ground, resistors), Injections(ground, currentSources),
                            Sources(ground, voltageSources));
    var x := SolveLinear(A, z);
    if x == None {
      return NoSolution;
    }
    var V := UnpackInto(nodeCount, ground, x.value);
    res := Solution(V, x.value[N..]);
  }
}
