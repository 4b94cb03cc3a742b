/** `formatSI(val, unit)` of the standalone script (app.js lines
    1298-1318).

    It scans the same table as the React port, but a non-zero magnitude
    below every row falls back to the last row (nano) instead of the unit
    row, zero always uses the unit row, and a space separates the number
    from the prefix. The digits (`toFixed`) are a parameter of the model,
    and non-finite values are not modelled. */
module ScriptFormat {
  import opened Common
  import opened Formatting

  /** The nano row, `scales[scales.length - 1]`. */
  const Nano: Scale := Scale(0.000000001, "n")

  /** Lines 1312-1313: the first row with `abs >= f`, else the last row;
      zero always takes the unit row `scales[3]`. */
  function PickScale(abs: real): (chosen: Scale)
    ensures chosen in Table
  {
    if abs == 0.0 then Table[3]
    else match FirstAtLeast(abs, 0)
      case Some(i) => Table[i]
      case None => Table[|Table| - 1]
  }

  /** Lines 1315-1317: the scaled number with its decimals, a space, the
      prefix and the unit. */
  function FormatSI(val: real, unit: string, toFixed: (real, nat) -> string): (text: string)
  {
    var chosen := PickScale(Abs(val));
    var num := val / chosen.k;
    toFixed(num, Decimals(num)) + " " + chosen.s + unit
  }

  /** From a nanounit up both versions pick the same row. */
  lemma AgreesFromNano(abs: real)
    requires abs >= 0.000000001
    ensures PickScale(abs) == Formatting.PickScale(abs)
  {
    assert abs >= Table[6].k;
  }

  /** Zero reads as a plain unit, as in the React port. */
  lemma ZeroUsesUnit(unit: string, toFixed: (real, nat) -> string)
    ensures FormatSI(0.0, unit, toFixed) == toFixed(0.0, 2) + " " + unit
    ensures Formatting.PickScale(0.0) == PickScale(0.0)
  {
    Formatting.SmallUsesUnit(0.0);
  }

  /** Below a nanounit a non-zero value is printed in nano, with a scaled
      magnitude below 1, where the React port prints it unscaled. */
  lemma TinyUsesNano(val: real)
    requires 0.0 < Abs(val) < 0.000000001
    ensures PickScale(Abs(val)) == Nano
    ensures Formatting.PickScale(Abs(val)) == Formatting.Unit
    ensures Abs(val / Nano.k) < 1.0
  {
    var abs := Abs(val);
    assert forall j :: 0 <= j < |Table| ==> Table[j].k >= 0.000000001;
    Formatting.SmallUsesUnit(val);
    assert Abs(val / Nano.k) == abs / Nano.k by {
      if val < 0.0 {
        assert val / Nano.k == -(abs / Nano.k);
      }
    }
  }

  /** The text is the number, a space, a prefix from the table and the
      unit; between a nanounit and a tera-unit the number lies in [1, 1000),
      as in the React port. */
  lemma FormatShape(val: real, unit: string, toFixed: (real, nat) -> string)
    ensures exists s :: s in Table &&
              FormatSI(val, unit, toFixed) == toFixed(val / s.k, Decimals(val / s.k)) + " " + s.s + unit
    ensures 0.000000001 <= Abs(val) < 1000000000000.0 ==>
              1.0 <= Abs(val / PickScale(Abs(val)).k) < 1000.0
  {
    var s := PickScale(Abs(val));
    assert s in Table;
    if 0.000000001 <= Abs(val) < 1000000000000.0 {
      AgreesFromNano(Abs(val));
      Formatting.ScaledInRange(val);
    }
  }
}
