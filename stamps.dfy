/** Assembly of the Modified Nodal Analysis system, shared by `solveMNA` in
    the React port (my-app/src/core/mnaSolver.js) and in the standalone
    script (app.js). Both first map each node (net) to an unknown index,
    -1 for ground, and then stamp with the same rules; the stamps here
    already carry those indices.

    With `N` node unknowns and `M` voltage sources the system has
    `N + M` rows: rows `0 .. N - 1` are Kirchhoff current equations and
    row `N + k` is the equation of voltage source `k`. */
module Stamps {
  import opened Common
  import opened Elimination

  /** A conductance `g` between unknowns `a` and `b`. */
  datatype Conductor = Conductor(a: int, b: int, g: real)

  /** An ideal voltage source forcing `v(a) - v(b) = v`. */
  datatype Source = Source(a: int, b: int, v: real)

  /** A current source driving `i` from `a` to `b`. */
  datatype Injection = Injection(a: int, b: int, i: real)

  /** `x` is ground (-1) or one of the `N` node unknowns. */
  predicate InRange(x: int, N: nat) {
    -1 <= x < N
  }

  predicate Square(A: Matrix, d: nat) {
    |A| == d && forall r :: 0 <= r < d ==> |A[r]| == d
  }

  /** `Array.from({ length: d }, () => Array(d).fill(0))`. */
  function Zeros(d: nat): (A: Matrix)
    ensures Square(A, d)
    ensures forall r, c :: 0 <= r < d && 0 <= c < d ==> A[r][c] == 0.0
  {
    seq(d, _ => seq(d, _ => 0.0))
  }

  /** `A[i][j] += v`. */
  function AddAt(A: Matrix, i: int, j: int, v: real): Matrix
    requires 0 <= i < |A| && 0 <= j < |A[i]|
  {
    A[i := A[i][j := A[i][j] + v]]
  }

  /** One conductance stamp as the source writes it: `+g` on each
      non-ground diagonal, `-g` on both off-diagonals only when neither end
      is ground. */
  function StampConductor(A: Matrix, N: nat, s: Conductor): (A': Matrix)
    requires Square(A, |A|) && N <= |A|
    requires InRange(s.a, N) && InRange(s.b, N)
    ensures Square(A', |A|)
  {
    var A1 := if s.a != -1 then AddAt(A, s.a, s.a, s.g) else A;
    var A2 := if s.b != -1 then AddAt(A1, s.b, s.b, s.g) else A1;
    if s.a != -1 && s.b != -1 then AddAt(AddAt(A2, s.a, s.b, -s.g), s.b, s.a, -s.g) else A2
  }

  predicate ConductorsIn(gs: seq<Conductor>, N: nat) {
    forall k :: 0 <= k < |gs| ==> InRange(gs[k].a, N) && InRange(gs[k].b, N)
  }

  predicate SourcesIn(vs: seq<Source>, N: nat) {
    forall k :: 0 <= k < |vs| ==> InRange(vs[k].a, N) && InRange(vs[k].b, N)
  }

  predicate InjectionsIn(cs: seq<Injection>, N: nat) {
    forall k :: 0 <= k < |cs| ==> InRange(cs[k].a, N) && InRange(cs[k].b, N)
  }

  /** The conductance stamps applied in list order. */
  function StampConductors(A: Matrix, N: nat, gs: seq<Conductor>): (A': Matrix)
    requires Square(A, |A|) && N <= |A| && ConductorsIn(gs, N)
    ensures Square(A', |A|)
    decreases |gs|
  {
    if gs == [] then A
    else StampConductor(StampConductors(A, N, gs[..|gs| - 1]), N, gs[|gs| - 1])
  }

  /** Reference definition of one stamp's share of entry (r, c) of the
      conductance block. */
  function Share(s: Conductor, r: int, c: int): real {
    (if s.a == r && s.a == c then s.g else 0.0) +
    (if s.b == r && s.b == c then s.g else 0.0) -
    (if s.a == r && s.b == c then s.g else 0.0) -
    (if s.b == r && s.a == c then s.g else 0.0)
  }

  /** Reference definition of entry (r, c) of the conductance block: the
      sum of every stamp's share. */
  function Conductance(gs: seq<Conductor>, r: int, c: int): real
    decreases |gs|
  {
    if gs == [] then 0.0 else Conductance(gs[..|gs| - 1], r, c) + Share(gs[|gs| - 1], r, c)
  }

  /** Voltage source `s`'s coefficient for node unknown `r`: +1 at `a`, -1
      at `b`, nothing at ground. */
  function Incidence(s: Source, r: int): real {
    (if s.a == r then 1.0 else 0.0) - (if s.b == r then 1.0 else 0.0)
  }

  /** Voltage source `k` (lines 70-86 of mnaSolver.js): +1 at (a, row)
      and (row, a), -1 at (b, row) and (row, b), skipping ground, where
      `row = N + k`. */
  function StampSource(A: Matrix, N: nat, k: nat, s: Source): (A': Matrix)
    requires Square(A, |A|) && N + k < |A|
    requires InRange(s.a, N) && InRange(s.b, N)
    ensures Square(A', |A|)
  {
    var row := N + k;
    var A1 := if s.a != -1 then AddAt(AddAt(A, s.a, row, 1.0), row, s.a, 1.0) else A;
    if s.b != -1 then AddAt(AddAt(A1, s.b, row, -1.0), row, s.b, -1.0) else A1
  }

  function StampSources(A: Matrix, N: nat, vs: seq<Source>): (A': Matrix)
    requires Square(A, |A|) && N + |vs| <= |A| && SourcesIn(vs, N)
    ensures Square(A', |A|)
    decreases |vs|
  {
    if vs == [] then A
    else StampSource(StampSources(A, N, vs[..|vs| - 1]), N, |vs| - 1, vs[|vs| - 1])
  }

  /** Reference definition of the whole MNA matrix entry (r, c). */
  function MnaEntry(N: nat, gs: seq<Conductor>, vs: seq<Source>, r: nat, c: nat): real
    requires r < N + |vs| && c < N + |vs|
  {
    if r < N && c < N then Conductance(gs, r, c)
    else if r < N then Incidence(vs[c - N], r)
    else if c < N then Incidence(vs[r - N], c)
    else 0.0
  }

  /** The assembled matrix, as the stamping loops leave it. */
  function Assemble(N: nat, gs: seq<Conductor>, vs: seq<Source>): (A: Matrix)
    requires ConductorsIn(gs, N) && SourcesIn(vs, N)
    ensures Square(A, N + |vs|)
  {
    StampSources(StampConductors(Zeros(N + |vs|), N, gs), N, vs)
  }

  /** One conductance stamp adds exactly its share to every entry. */
  lemma StampConductorEntry(A: Matrix, N: nat, s: Conductor, r: nat, c: nat)
    requires Square(A, |A|) && N <= |A|
    requires InRange(s.a, N) && InRange(s.b, N)
    requires r < |A| && c < |A|
    ensures StampConductor(A, N, s)[r][c] == A[r][c] + Share(s, r, c)
  {
  }

  /** The conductance loop adds, to every entry, the reference sum. */
  lemma {:induction false} StampConductorsEntry(A: Matrix, N: nat, gs: seq<Conductor>, r: nat, c: nat)
    requires Square(A, |A|) && N <= |A| && ConductorsIn(gs, N)
    requires r < |A| && c < |A|
    ensures StampConductors(A, N, gs)[r][c] == A[r][c] + Conductance(gs, r, c)
    decreases |gs|
  {
    if gs != [] {
      var pre := gs[..|gs| - 1];
      StampConductorsEntry(A, N, pre, r, c);
      StampConductorEntry(StampConductors(A, N, pre), N, gs[|gs| - 1], r, c);
    }
  }

  /** Conductance stamps never touch a source row or column. */
  lemma {:induction false} ConductanceOutside(gs: seq<Conductor>, N: nat, r: nat, c: nat)
    requires ConductorsIn(gs, N)
    requires r >= N || c >= N
    ensures Conductance(gs, r, c) == 0.0
    decreases |gs|
  {
    if gs != [] {
      ConductanceOutside(gs[..|gs| - 1], N, r, c);
    }
  }

  lemma StampSourceEntry(A: Matrix, N: nat, k: nat, s: Source, r: nat, c: nat)
    requires Square(A, |A|) && N + k < |A|
    requires InRange(s.a, N) && InRange(s.b, N)
    requires r < |A| && c < |A|
    ensures StampSource(A, N, k, s)[r][c] ==
              A[r][c] + (if c == N + k && r < N then Incidence(s, r) else 0.0)
                      + (if r == N + k && c < N then Incidence(s, c) else 0.0)
  {
  }

  /** The source loop adds each source's incidences in its own row and
      column. */
  lemma {:induction false} StampSourcesEntry(A: Matrix, N: nat, vs: seq<Source>, r: nat, c: nat)
    requires Square(A, |A|) && N + |vs| <= |A| && SourcesIn(vs, N)
    requires r < |A| && c < |A|
    ensures StampSources(A, N, vs)[r][c] ==
              A[r][c] + (if N <= c < N + |vs| && r < N then Incidence(vs[c - N], r) else 0.0)
                      + (if N <= r < N + |vs| && c < N then Incidence(vs[r - N], c) else 0.0)
    decreases |vs|
  {
    if vs != [] {
      var pre := vs[..|vs| - 1];
      StampSourcesEntry(A, N, pre, r, c);
      StampSourceEntry(StampSources(A, N, pre), N, |vs| - 1, vs[|vs| - 1], r, c);
      if N <= c < N + |pre| {
        assert vs[c - N] == pre[c - N];
      }
      if N <= r < N + |pre| {
        assert vs[r - N] == pre[r - N];
      }
    }
  }

  /** Every entry of the assembled matrix is the reference entry. */
  lemma AssembleEntry(N: nat, gs: seq<Conductor>, vs: seq<Source>, r: nat, c: nat)
    requires ConductorsIn(gs, N) && SourcesIn(vs, N)
    requires r < N + |vs| && c < N + |vs|
    ensures Assemble(N, gs, vs)[r][c] == MnaEntry(N, gs, vs, r, c)
  {
    var Z := Zeros(N + |vs|);
    StampConductorsEntry(Z, N, gs, r, c);
    StampSourcesEntry(StampConductors(Z, N, gs), N, vs, r, c);
    if r >= N || c >= N {
      ConductanceOutside(gs, N, r, c);
    }
  }

  /** The reference conductance block is symmetric. */
  lemma {:induction false} ConductanceSymmetric(gs: seq<Conductor>, r: int, c: int)
    ensures Conductance(gs, r, c) == Conductance(gs, c, r)
    decreases |gs|
  {
    if gs != [] {
      ConductanceSymmetric(gs[..|gs| - 1], r, c);
    }
  }

  /** The assembled MNA matrix is symmetric. */
  lemma AssembleSymmetric(N: nat, gs: seq<Conductor>, vs: seq<Source>, r: nat, c: nat)
    requires ConductorsIn(gs, N) && SourcesIn(vs, N)
    requires r < N + |vs| && c < N + |vs|
    ensures Assemble(N, gs, vs)[r][c] == Assemble(N, gs, vs)[c][r]
  {
    AssembleEntry(N, gs, vs, r, c);
    AssembleEntry(N, gs, vs, c, r);
    ConductanceSymmetric(gs, r, c);
  }

  /** Current source loop: `z[a] -= I`, `z[b] += I`, skipping ground. */
  function InjectAll(z: seq<real>, cs: seq<Injection>): (z': seq<real>)
    requires InjectionsIn(cs, |z|)
    ensures |z'| == |z|
    decreases |cs|
  {
    if cs == [] then z
    else
      var z0 := InjectAll(z, cs[..|cs| - 1]);
      var s := cs[|cs| - 1];
      var z1 := if s.a != -1 then z0[s.a := z0[s.a] - s.i] else z0;
      if s.b != -1 then z1[s.b := z1[s.b] + s.i] else z1
  }

  /** Reference definition of the net current driven into unknown `r`. */
  function Inflow(cs: seq<Injection>, r: int): real
    decreases |cs|
  {
    if cs == [] then 0.0
    else
      var s := cs[|cs| - 1];
      Inflow(cs[..|cs| - 1], r) + (if s.b == r then s.i else 0.0) - (if s.a == r then s.i else 0.0)
  }

  lemma {:induction false} InjectAllEntry(z: seq<real>, cs: seq<Injection>, r: nat)
    requires InjectionsIn(cs, |z|)
    requires r < |z|
    ensures InjectAll(z, cs)[r] == z[r] + Inflow(cs, r)
    decreases |cs|
  {
    if cs != [] {
      InjectAllEntry(z, cs[..|cs| - 1], r);
    }
  }

  /** `z[row] = V` for each source. */
  function SetSources(z: seq<real>, N: nat, vs: seq<Source>): (z': seq<real>)
    requires N + |vs| <= |z|
    ensures |z'| == |z|
    ensures forall r :: 0 <= r < |z| ==> z'[r] == if N <= r < N + |vs| then vs[r - N].v else z[r]
  {
    seq(|z|, r requires 0 <= r < |z| => if N <= r < N + |vs| then vs[r - N].v else z[r])
  }

  /** The loop of lines 48-59 of mnaSolver.js (and `stampG`, app.js
      lines 1131-1145): every conductance stamped into `A` in list order. */
  method StampConductorsInto(A: array<seq<real>>, N: nat, gs: seq<Conductor>)
    requires Square(A[..], A.Length) && N <= A.Length && ConductorsIn(gs, N)
    modifies A
    ensures A[..] == StampConductors(old(A[..]), N, gs)
  {
    for k := 0 to |gs|
      invariant Square(A[..], A.Length)
      invariant A[..] == StampConductors(old(A[..]), N, gs[..k])
    {
      assert gs[..k + 1][..k] == gs[..k];
      StampConductorAt(A, N, gs[k]);
    }
    assert gs[..|gs|] == gs;
  }

  /** One pass of that loop: the four entries of one conductance. */
  method StampConductorAt(A: array<seq<real>>, N: nat, s: Conductor)
    requires Square(A[..], A.Length) && N <= A.Length
    requires InRange(s.a, N) && InRange(s.b, N)
    modifies A
    ensures A[..] == StampConductor(old(A[..]), N, s)
  {
    if s.a != -1 {
      A[s.a] := A[s.a][s.a := A[s.a][s.a] + s.g];
    }
    if s.b != -1 {
      A[s.b] := A[s.b][s.b := A[s.b][s.b] + s.g];
    }
    if s.a != -1 && s.b != -1 {
      A[s.a] := A[s.a][s.b := A[s.a][s.b] - s.g];
      A[s.b] := A[s.b][s.a := A[s.b][s.a] - s.g];
    }
  }

  /** The loop of lines 70-86 of mnaSolver.js (app.js lines 1147-1162):
      each source's incidences, and `z[N + k] = V`. */
  method StampSourcesInto(A: array<seq<real>>, z: array<real>, N: nat, vs: seq<Source>)
    requires Square(A[..], A.Length) && z.Length == A.Length && N + |vs| <= A.Length
    requires SourcesIn(vs, N)
    modifies A, z
    ensures A[..] == StampSources(old(A[..]), N, vs)
    ensures z[..] == SetSources(old(z[..]), N, vs)
  {
    for k := 0 to |vs|
      invariant Square(A[..], A.Length)
      invariant A[..] == StampSources(old(A[..]), N, vs[..k])
      invariant z[..] == SetSources(old(z[..]), N, vs[..k])
    {
      assert vs[..k + 1][..k] == vs[..k];
      StampSourceAt(A, N, k, vs[k]);
      z[N + k] := vs[k].v;
    }
    assert vs[..|vs|] == vs;
  }

  /** One pass of that loop on `A`: the source's four incidences. */
  method StampSourceAt(A: array<seq<real>>, N: nat, k: nat, s: Source)
    requires Square(A[..], A.Length) && N + k < A.Length
    requires InRange(s.a, N) && InRange(s.b, N)
    modifies A
    ensures A[..] == StampSource(old(A[..]), N, k, s)
  {
    var row := N + k;
    if s.a != -1 {
      A[s.a] := A[s.a][row := A[s.a][row] + 1.0];
      A[row] := A[row][s.a := A[row][s.a] + 1.0];
    }
    if s.b != -1 {
      A[s.b] := A[s.b][row := A[s.b][row] - 1.0];
      A[row] := A[row][s.b := A[row][s.b] - 1.0];
    }
  }

  /** The loop of lines 62-67 of mnaSolver.js: each current source takes
      its current out of `a` and into `b`, skipping ground. */
  method InjectInto(z: array<real>, cs: seq<Injection>)
    requires InjectionsIn(cs, z.Length)
    modifies z
    ensures z[..] == InjectAll(old(z[..]), cs)
  {
    for k := 0 to |cs|
      invariant z[..] == InjectAll(old(z[..]), cs[..k])
    {
      assert cs[..k + 1][..k] == cs[..k];
      var s := cs[k];
      if s.a != -1 {
        z[s.a] := z[s.a] - s.i;
      }
      if s.b != -1 {
        z[s.b] := z[s.b] + s.i;
      }
    }
    assert cs[..|cs|] == cs;
  }
}
