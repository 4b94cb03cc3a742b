/** `formatSI` of the React port (my-app/src/core/formatting.js): picks
    an SI prefix from a fixed table and a number of decimals, and renders
    the scaled number, the prefix and the unit with no separator.

    The digits themselves (`toFixed`) are a parameter of the model. */
module Formatting {
  import opened Common
  import opened Components

  /** A table row: the scale `k` and its prefix `s`. */
  datatype Scale = Scale(k: real, s: string)

  /** The table scanned from the largest scale down. */
  const Table: seq<Scale> := [
    Scale(1000000000.0, "G"),
    Scale(1000000.0, "M"),
    Scale(1000.0, "k"),
    Scale(1.0, ""),
    Scale(0.001, "m"),
    Scale(0.000001, "µ"),
    Scale(0.000000001, "n")
  ]

  /** The unit scale, `table[3]`, used when no row matches. */
  const Unit: Scale := Scale(1.0, "")

  /** The first row at or after `i` whose scale `abs` reaches. */
  function FirstAtLeast(abs: real, i: nat): (r: Option<nat>)
    requires i <= |Table|
    ensures r.Some? ==> i <= r.value < |Table| && abs >= Table[r.value].k &&
                        forall j :: i <= j < r.value ==> abs < Table[j].k
    ensures r.None? ==> forall j :: i <= j < |Table| ==> abs < Table[j].k
    decreases |Table| - i
  {
    if i == |Table| then None
    else if abs >= Table[i].k then Some(i)
    else FirstAtLeast(abs, i + 1)
  }

  /** Lines 14-20: the first row with `abs >= k`, else the unit row. */
  function PickScale(abs: real): (best: Scale)
    ensures best in Table
  {
    match FirstAtLeast(abs, 0)
    case Some(i) => Table[i]
    case None => Unit
  }

  /** Line 22: no decimals from 100 up, one from 10 up, else two. */
  function Decimals(n: real): (d: nat)
    ensures d <= 2
    ensures Abs(n) >= 100.0 <==> d == 0
    ensures 10.0 <= Abs(n) < 100.0 <==> d == 1
    ensures Abs(n) < 10.0 <==> d == 2
  {
    if Abs(n) >= 100.0 then 0 else if Abs(n) >= 10.0 then 1 else 2
  }

  /** What `formatSI` prints: nothing to show, or a scaled number with
      its decimals and prefix. */
  datatype Reading =
    | NoReading
    | Reading(n: real, decimals: nat, prefix: string)

  /** Lines 2-22 for a value that may be `null`. */
  function ReadingOf(value: Option<real>): (r: Reading)
    ensures value.None? <==> r.NoReading?
  {
    match value
    case None => NoReading
    case Some(v) =>
      var best := PickScale(Abs(v));
      var n := v / best.k;
      Reading(n, Decimals(n), best.s)
  }

  /** `formatSI(value, unit)`: "—" for no value, else the digits, then the
      prefix, then the unit (line 23). */
  function FormatSI(value: Option<real>, unit: string, toFixed: (real, nat) -> string): (text: string)
    ensures value.None? ==> text == Dash
    ensures value.Some? ==> var r := ReadingOf(value);
                            text == toFixed(r.n, r.decimals) + r.prefix + unit
  {
    match ReadingOf(value)
    case NoReading => Dash
    case Reading(n, d, prefix) => toFixed(n, d) + prefix + unit
  }

  /** Below a nanounit, zero included, no row matches and the unit row
      is used. */
  lemma SmallUsesUnit(v: real)
    requires Abs(v) < 0.000000001
    ensures PickScale(Abs(v)) == Unit
    ensures ReadingOf(Some(v)) == Reading(v, Decimals(v), "")
  {
    assert forall j :: 0 <= j < |Table| ==> Table[j].k >= 0.000000001;
  }

  /** The chosen row is the largest scale not above the magnitude. */
  lemma PickIsLargestBelow(abs: real, i: nat)
    requires abs >= 0.000000001 && i < |Table|
    ensures PickScale(abs).k <= abs
    ensures Table[i].k <= abs ==> Table[i].k <= PickScale(abs).k
  {
    assert abs >= Table[6].k;
  }

  /** Between a nanounit and a tera-unit the scaled magnitude lies in
      [1, 1000). */
  lemma ScaledInRange(v: real)
    requires 0.000000001 <= Abs(v) < 1000000000000.0
    ensures var r := ReadingOf(Some(v));
            1.0 <= Abs(r.n) < 1000.0
  {
    var abs := Abs(v);
    var best := PickScale(abs);
    PickBrackets(abs);
    AbsQuotient(v, best.k);
    QuotientInRange(abs, best.k);
  }

  lemma AbsQuotient(v: real, k: real)
    requires k > 0.0
    ensures Abs(v / k) == Abs(v) / k
  {
    if v < 0.0 {
      assert v / k == -(Abs(v) / k);
    }
  }

  /** In range, the chosen scale is at most the magnitude and more than a
      thousandth of it. */
  lemma PickBrackets(abs: real)
    requires 0.000000001 <= abs < 1000000000000.0
    ensures 0.0 < PickScale(abs).k <= abs < 1000.0 * PickScale(abs).k
  {
    var i := FirstAtLeast(abs, 0).value;
    assert PickScale(abs) == Table[i];
    if i > 0 {
      assert abs < Table[i - 1].k;
      assert Table[i - 1].k == 1000.0 * Table[i].k;
    }
  }

  lemma QuotientInRange(abs: real, k: real)
    requires 0.0 < k <= abs < 1000.0 * k
    ensures 1.0 <= abs / k < 1000.0
  {
    var q := abs / k;
    assert q * k == abs;
    if q < 1.0 || q >= 1000.0 {
      assert false;
    }
  }
}
