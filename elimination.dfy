/** Gauss–Jordan elimination with partial pivoting (`solveLinear`), shared
    by the React port (my-app/src/core/mnaSolver.js) and the standalone
    script (app.js). The two differ in one place: the script skips the
    elimination of a row whose factor is below the threshold, which the
    flag `skipTiny` selects.

    The specification works on matrices as values: `Run` applies the column
    steps one after another and fails at the first column whose best pivot
    is below the threshold. The method works in place on an array of rows,
    as the source does, and is proved to compute `SolveSpec`. */
module Elimination {
  import opened Common

  /** The singularity threshold 1e-12. */
  const Tiny: real := 0.000000000001

  type Matrix = seq<seq<real>>

  /** `n` rows of `n + 1` entries: an augmented square system. */
  predicate Shaped(M: Matrix, n: nat) {
    |M| == n && forall r :: 0 <= r < n ==> |M[r]| == n + 1
  }

  /** `A.map((row, i) => row.slice().concat([b[i]]))`. */
  function Augment(A: Matrix, b: seq<real>): (M: Matrix)
    requires |b| == |A|
    requires forall r :: 0 <= r < |A| ==> |A[r]| == |A|
    ensures Shaped(M, |A|)
    ensures forall r, c :: 0 <= r < |A| && 0 <= c < |A| ==> M[r][c] == A[r][c]
    ensures forall r :: 0 <= r < |A| ==> M[r][|A|] == b[r]
  {
    seq(|A|, r requires 0 <= r < |A| => A[r] + [b[r]])
  }

  /** The pivot chosen for column `i` after scanning rows `i .. r - 1`:
      the first row whose entry in column `i` has the largest magnitude
      (a later row replaces it only when strictly larger). */
  function PivotUpTo(M: Matrix, i: nat, r: nat): (p: nat)
    requires i < r <= |M|
    requires forall k :: 0 <= k < |M| ==> i < |M[k]|
    ensures i <= p < r
    ensures forall k :: i <= k < r ==> Abs(M[k][i]) <= Abs(M[p][i])
    ensures forall k :: i <= k < p ==> Abs(M[k][i]) < Abs(M[p][i])
    decreases r
  {
    if r == i + 1 then i
    else
      var p := PivotUpTo(M, i, r - 1);
      if Abs(M[r - 1][i]) > Abs(M[p][i]) then r - 1 else p
  }

  function Pivot(M: Matrix, n: nat, i: nat): (p: nat)
    requires Shaped(M, n) && i < n
    ensures i <= p < n
  {
    PivotUpTo(M, i, n)
  }

  /** The best pivot magnitude for column `i` is below the threshold. */
  predicate Singular(M: Matrix, n: nat, i: nat)
    requires Shaped(M, n) && i < n
  {
    Abs(M[Pivot(M, n, i)][i]) < Tiny
  }

  /** `[M[i], M[p]] = [M[p], M[i]]`. */
  function Swap(M: Matrix, i: nat, p: nat): (S: Matrix)
    requires i < |M| && p < |M|
    ensures |S| == |M| && S[i] == M[p] && S[p] == M[i]
    ensures forall r :: 0 <= r < |M| && r != i && r != p ==> S[r] == M[r]
  {
    M[i := M[p]][p := M[i]]
  }

  /** The pivot row divided by `d` from column `i` on. */
  function Normalize(row: seq<real>, i: nat, d: real): seq<real>
    requires d != 0.0
  {
    seq(|row|, c requires 0 <= c < |row| => if c >= i then row[c] / d else row[c])
  }

  /** Row `row` minus `f` times the pivot row from column `i` on, where
      `f` is the row's entry in column `i`; with `skipTiny` a row whose
      factor is below the threshold is left alone. */
  function EliminateRow(row: seq<real>, prow: seq<real>, i: nat, skipTiny: bool): seq<real>
    requires i < |row| == |prow|
  {
    var f := row[i];
    if skipTiny && Abs(f) < Tiny then row
    else seq(|row|, c requires 0 <= c < |row| => if c >= i then row[c] - f * prow[c] else row[c])
  }

  /** One column of the elimination: swap the pivot row up, normalise it,
      and eliminate column `i` from every other row. */
  function Step(M: Matrix, n: nat, i: nat, skipTiny: bool): (M': Matrix)
    requires Shaped(M, n) && i < n && !Singular(M, n, i)
    ensures Shaped(M', n)
  {
    var S := Swap(M, i, Pivot(M, n, i));
    var P := Normalize(S[i], i, S[i][i]);
    seq(n, r requires 0 <= r < n => if r == i then P else EliminateRow(S[r], P, i, skipTiny))
  }

  /** The first `k` columns processed in order; `None` as soon as a column
      is singular. */
  function Run(M: Matrix, n: nat, k: nat, skipTiny: bool): (res: Option<Matrix>)
    requires Shaped(M, n) && k <= n
    ensures res.Some? ==> Shaped(res.value, n)
    decreases k
  {
    if k == 0 then Some(M)
    else
      match Run(M, n, k - 1, skipTiny)
      case None => None
      case Some(P) => if Singular(P, n, k - 1) then None else Some(Step(P, n, k - 1, skipTiny))
  }

  /** The last column of a reduced matrix: `M.map((row) => row[n])`. */
  function LastColumn(R: Matrix, n: nat): (x: seq<real>)
    requires Shaped(R, n)
    ensures |x| == n
  {
    seq(n, r requires 0 <= r < n => R[r][n])
  }

  /** What `solveLinear(A, b)` returns: `None` for `null`. */
  function SolveSpec(A: Matrix, b: seq<real>, skipTiny: bool): Option<seq<real>>
    requires |b| == |A|
    requires forall r :: 0 <= r < |A| ==> |A[r]| == |A|
  {
    match Run(Augment(A, b), |A|, |A|, skipTiny)
    case None => None
    case Some(R) => Some(LastColumn(R, |A|))
  }

  /** Once a column has failed, every later prefix fails too. */
  lemma {:induction false} RunStaysFailed(M: Matrix, n: nat, j: nat, k: nat, skipTiny: bool)
    requires Shaped(M, n) && j <= k <= n
    requires Run(M, n, j, skipTiny).None?
    ensures Run(M, n, k, skipTiny).None?
    decreases k
  {
    if k > j {
      RunStaysFailed(M, n, j, k - 1, skipTiny);
    }
  }

  /** Column `j` is reached without failure and its best pivot is below
      the threshold. */
  predicate FailsAt(M: Matrix, n: nat, j: nat, skipTiny: bool)
    requires Shaped(M, n) && j < n
  {
    Run(M, n, j, skipTiny).Some? && Singular(Run(M, n, j, skipTiny).value, n, j)
  }

  /** The elimination fails exactly when, at some column reached without
      failure, the best pivot magnitude is below the threshold. */
  lemma {:induction false} RunFailsIff(M: Matrix, n: nat, k: nat, skipTiny: bool)
    requires Shaped(M, n) && k <= n
    ensures Run(M, n, k, skipTiny).None? <==> exists j :: 0 <= j < k && FailsAt(M, n, j, skipTiny)
    decreases k
  {
    if Run(M, n, k, skipTiny).None? {
      RunFailsSomewhere(M, n, k, skipTiny);
    } else {
      forall j | 0 <= j < k ensures !FailsAt(M, n, j, skipTiny) {
        if FailsAt(M, n, j, skipTiny) {
          FailureSticks(M, n, j, k, skipTiny);
        }
      }
    }
  }

  /** A failure at column `j` fails every run past it. */
  lemma FailureSticks(M: Matrix, n: nat, j: nat, k: nat, skipTiny: bool)
    requires Shaped(M, n) && j < k <= n
    requires FailsAt(M, n, j, skipTiny)
    ensures Run(M, n, k, skipTiny).None?
  {
    assert Run(M, n, j + 1, skipTiny).None?;
    RunStaysFailed(M, n, j + 1, k, skipTiny);
  }

  /** A failed run failed at some column. */
  lemma {:induction false} RunFailsSomewhere(M: Matrix, n: nat, k: nat, skipTiny: bool)
    requires Shaped(M, n) && k <= n
    requires Run(M, n, k, skipTiny).None?
    ensures exists j :: 0 <= j < k && FailsAt(M, n, j, skipTiny)
    decreases k
  {
    if Run(M, n, k - 1, skipTiny).None? {
      RunFailsSomewhere(M, n, k - 1, skipTiny);
      var j :| 0 <= j < k - 1 && FailsAt(M, n, j, skipTiny);
      assert 0 <= j < k;
    } else {
      assert FailsAt(M, n, k - 1, skipTiny);
    }
  }

  /** The first `k` columns of `R` are unit columns: 1 on the diagonal and
      0 elsewhere (below the threshold when tiny factors are skipped). */
  predicate Reduced(R: Matrix, n: nat, k: nat, skipTiny: bool)
    requires Shaped(R, n) && k <= n
  {
    forall r, c :: 0 <= r < n && 0 <= c < k ==> UnitEntry(R, r, c, skipTiny)
  }

  /** Entry (r, c) of a unit column `c`. */
  predicate UnitEntry(R: Matrix, r: nat, c: nat, skipTiny: bool)
    requires r < |R| && c < |R[r]|
  {
    if r == c then R[r][c] == 1.0
    else if skipTiny then Abs(R[r][c]) < Tiny
    else R[r][c] == 0.0
  }

  lemma StepReduces(M: Matrix, n: nat, k: nat, skipTiny: bool, M': Matrix)
    requires Shaped(M, n) && 0 < k <= n && !Singular(M, n, k - 1)
    requires Reduced(M, n, k - 1, skipTiny)
    requires M' == Step(M, n, k - 1, skipTiny)
    ensures Shaped(M', n) && Reduced(M', n, k, skipTiny)
  {
    var i := k - 1;
    var p := Pivot(M, n, i);
    var S := Swap(M, i, p);
    var d := S[i][i];
    var P := Normalize(S[i], i, d);
    assert P[i] == 1.0;
    forall r, c | 0 <= r < n && 0 <= c < k ensures UnitEntry(M', r, c, skipTiny) {
      if c < i {
        if r == i {
          assert M'[r][c] == S[i][c] == M[p][c];
          assert UnitEntry(M, p, c, skipTiny);
        } else {
          assert M'[r][c] == S[r][c];
          if r == p {
            assert S[r][c] == M[i][c];
            assert UnitEntry(M, i, c, skipTiny);
          } else {
            assert S[r][c] == M[r][c];
            assert UnitEntry(M, r, c, skipTiny);
          }
        }
      } else if r != i {
        assert M'[r] == EliminateRow(S[r], P, i, skipTiny);
      }
    }
  }

  /** After `k` columns without failure, those columns are unit columns. */
  lemma {:induction false} RunReduces(M: Matrix, n: nat, k: nat, skipTiny: bool, R: Matrix)
    requires Shaped(M, n) && k <= n
    requires Run(M, n, k, skipTiny) == Some(R)
    ensures Shaped(R, n) && Reduced(R, n, k, skipTiny)
    decreases k
  {
    if k > 0 {
      var P := RunLast(M, n, k, skipTiny);
      RunReduces(M, n, k - 1, skipTiny, P);
      StepReduces(P, n, k, skipTiny, R);
    }
  }

  /** A successful run of `k` columns is one more step after a successful
      run of `k - 1`. */
  lemma RunLast(M: Matrix, n: nat, k: nat, skipTiny: bool) returns (P: Matrix)
    requires Shaped(M, n) && 0 < k <= n
    requires Run(M, n, k, skipTiny).Some?
    ensures Run(M, n, k - 1, skipTiny) == Some(P) && Shaped(P, n)
    ensures !Singular(P, n, k - 1)
    ensures Run(M, n, k, skipTiny).value == Step(P, n, k - 1, skipTiny)
  {
    P := Run(M, n, k - 1, skipTiny).value;
  }

  /** On success without skipping, the left block of the reduced system is
      the identity, so the returned column is its solution; one entry per
      row. */
  lemma SolveReducesToIdentity(A: Matrix, b: seq<real>)
    requires |b| == |A|
    requires forall r :: 0 <= r < |A| ==> |A[r]| == |A|
    requires SolveSpec(A, b, false).Some?
    ensures |SolveSpec(A, b, false).value| == |A|
    ensures forall r, c :: 0 <= r < |A| && 0 <= c < |A| ==>
              Run(Augment(A, b), |A|, |A|, false).value[r][c] == if r == c then 1.0 else 0.0
  {
    var R := Run(Augment(A, b), |A|, |A|, false).value;
    RunReduces(Augment(A, b), |A|, |A|, false, R);
    forall r, c | 0 <= r < |A| && 0 <= c < |A| ensures R[r][c] == if r == c then 1.0 else 0.0 {
      assert UnitEntry(R, r, c, false);
    }
  }

  /** The elimination as the source performs it: on a fresh augmented copy
      `M` whose rows are swapped, normalised and reduced in place; `A` and
      `b` are read only. */
  method Solve(A: array<seq<real>>, b: array<real>, skipTiny: bool) returns (x: Option<seq<real>>)
    requires b.Length == A.Length
    requires forall r :: 0 <= r < A.Length ==> |A[r]| == A.Length
    ensures x == SolveSpec(A[..], b[..], skipTiny)
  {
    var n := A.Length;
    var M := Augmented(A, b);
    var ok := ReduceAll(M, skipTiny);
    if ok {
      x := Some(LastColumn(M[..], n));
    } else {
      x := None;
    }
  }

  /** The outer loop over the columns; it gives up at the first singular
      one. */
  method ReduceAll(M: array<seq<real>>, skipTiny: bool) returns (ok: bool)
    requires Shaped(M[..], M.Length)
    modifies M
    ensures ok == Run(old(M[..]), M.Length, M.Length, skipTiny).Some?
    ensures ok ==> M[..] == Run(old(M[..]), M.Length, M.Length, skipTiny).value
  {
    var n := M.Length;
    ghost var M0 := M[..];
    for i := 0 to n
      invariant Run(M0, n, i, skipTiny) == Some(M[..])
    {
      ok := Column(M, i, skipTiny);
      if !ok {
        assert Run(M0, n, i + 1, skipTiny).None?;
        RunStaysFailed(M0, n, i + 1, n, skipTiny);
        return;
      }
    }
    ok := true;
  }

  /** The fresh augmented copy `M` of `A` and `b`. */
  method Augmented(A: array<seq<real>>, b: array<real>) returns (M: array<seq<real>>)
    requires b.Length == A.Length
    requires forall r :: 0 <= r < A.Length ==> |A[r]| == A.Length
    ensures fresh(M) && M.Length == A.Length
    ensures M[..] == Augment(A[..], b[..])
  {
    M := new seq<real>[A.Length];
    for r := 0 to A.Length
      invariant forall k :: 0 <= k < r ==> M[k] == A[k] + [b[k]]
    {
      M[r] := A[r] + [b[r]];
    }
  }

  /** One pass of the outer loop (lines 7-24 of mnaSolver.js): choose the
      pivot, give up when it is below the threshold, otherwise swap,
      normalise and eliminate. */
  method Column(M: array<seq<real>>, i: nat, skipTiny: bool) returns (ok: bool)
    requires Shaped(M[..], M.Length) && i < M.Length
    modifies M
    ensures ok == !Singular(old(M[..]), M.Length, i)
    ensures ok ==> M[..] == Step(old(M[..]), M.Length, i, skipTiny)
    ensures !ok ==> M[..] == old(M[..])
  {
    var piv := FindPivot(M, i);
    if Abs(M[piv][i]) < Tiny {
      return false;
    }
    if piv != i {
      M[i], M[piv] := M[piv], M[i];
    }
    assert M[..] == Swap(old(M[..]), i, piv);
    var div := M[i][i];
    NormalizeRow(M, i, div);
    Eliminate(M, i, skipTiny);
    ok := true;
  }

  /** The pivot scan `for (let r = i + 1; r < n; r++)`. */
  method FindPivot(M: array<seq<real>>, i: nat) returns (piv: nat)
    requires Shaped(M[..], M.Length) && i < M.Length
    ensures piv == Pivot(M[..], M.Length, i)
  {
    var n := M.Length;
    piv := i;
    for r := i + 1 to n
      invariant piv == PivotUpTo(M[..], i, r)
    {
      if Abs(M[r][i]) > Abs(M[piv][i]) {
        piv := r;
      }
    }
  }

  /** `for (let c = i; c <= n; c++) M[i][c] /= div`. */
  method NormalizeRow(M: array<seq<real>>, i: nat, div: real)
    requires i < M.Length && i < |M[i]| && div != 0.0
    modifies M
    ensures M[..] == old(M[..])[i := Normalize(old(M[i]), i, div)]
  {
    ghost var row := M[i];
    var len := |M[i]|;
    for c := i to len
      invariant |M[i]| == |row|
      invariant forall k :: 0 <= k < |row| ==> M[i][k] == if i <= k < c then row[k] / div else row[k]
      invariant forall r :: 0 <= r < M.Length && r != i ==> M[r] == old(M[r])
    {
      M[i] := M[i][c := M[i][c] / div];
    }
    assert M[i] == Normalize(row, i, div);
  }

  /** The elimination loop: every row but `i` loses its column-`i` entry. */
  method Eliminate(M: array<seq<real>>, i: nat, skipTiny: bool)
    requires i < M.Length
    requires forall r :: 0 <= r < M.Length ==> i < |M[r]| == |M[i]|
    modifies M
    ensures forall r :: 0 <= r < M.Length ==>
              M[r] == if r == i then old(M[i]) else EliminateRow(old(M[r]), old(M[i]), i, skipTiny)
  {
    var n := M.Length;
    for r := 0 to n
      invariant M[i] == old(M[i])
      invariant forall k :: 0 <= k < r && k != i ==> M[k] == EliminateRow(old(M[k]), old(M[i]), i, skipTiny)
      invariant forall k :: r <= k < n ==> M[k] == old(M[k])
    {
      if r == i {
        continue;
      }
      var f := M[r][i];
      if skipTiny && Abs(f) < Tiny {
        continue;
      }
      SubtractPivotRow(M, r, i, skipTiny);
    }
  }

  /** `for (let c = i; c <= n; c++) M[r][c] -= f * M[i][c]`, reached when
      the factor is not skipped. */
  method SubtractPivotRow(M: array<seq<real>>, r: nat, i: nat, skipTiny: bool)
    requires r < M.Length && i < M.Length && r != i
    requires i < |M[r]| == |M[i]|
    requires !(skipTiny && Abs(M[r][i]) < Tiny)
    modifies M
    ensures M[..] == old(M[..])[r := EliminateRow(old(M[r]), old(M[i]), i, skipTiny)]
  {
    var f := M[r][i];
    ghost var row := M[r];
    var len := |M[r]|;
    for c := i to len
      invariant |M[r]| == |row| == |M[i]|
      invariant forall k :: 0 <= k < |row| ==> M[r][k] == if i <= k < c then row[k] - f * M[i][k] else row[k]
      invariant forall k :: 0 <= k < M.Length && k != r ==> M[k] == old(M[k])
    {
      M[r] := M[r][c := M[r][c] - f * M[i][c]];
    }
    assert f == row[i] && M[i] == old(M[i]) && row == old(M[r]);
    assert forall k :: 0 <= k < |row| ==> M[r][k] == EliminateRow(row, old(M[i]), i, skipTiny)[k];
    assert M[r] == EliminateRow(row, old(M[i]), i, skipTiny);
    assert forall k :: 0 <= k < M.Length ==> M[k] == old(M[..])[r := EliminateRow(row, old(M[i]), i, skipTiny)][k];
  }
}
