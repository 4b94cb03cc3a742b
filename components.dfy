/** Placed components ("items"), shared by the standalone script and the React port.

    An item is a loosely typed record in the source; here it is a record whose
    type-specific fields are optional, so that `it.R ?? 100`, `it.R || 1` and
    `!it.display` can be modelled exactly as written. */
module Components {
  import opened Common

  /** The `type` field. Any other string is kept as `Other`. */
  datatype Kind =
    | Battery
    | Resistor
    | Switch
    | Bulb
    | Voltmeter
    | Ammeter
    | Ohmmeter
    | Other(name: string)
  {
    /** The three instruments whose `display` field shows a reading. */
    predicate IsMeter() {
      Voltmeter? || Ammeter? || Ohmmeter?
    }
  }

  /** The optional, type-specific fields of an item (`...props` in the source). */
  datatype Props = Props(
    V: Option<real>,
    Rint: Option<real>,
    R: Option<real>,
    closed: Option<bool>,
    sizePct: Option<real>,
    rot: Option<real>,
    brightness: Option<real>,
    display: Option<string>)

  const NoProps := Props(None, None, None, None, None, None, None, None)

  /** The "no reading" text shown by meters. */
  const Dash: string := "—"

  /** An item. `netA`/`netB` are the React port's hidden `_netA`/`_netB`
      fields, read by `applySolutionToItems`; nothing in the code sets them. */
  datatype Item = Item(
    id: Id,
    kind: Kind,
    x: real,
    y: real,
    props: Props,
    netA: Option<int>,
    netB: Option<int>)
  {
    /** JavaScript truthiness of `it.closed`. */
    predicate IsClosed() {
      props.closed == Some(true)
    }
  }

  /** Shared reset applied when a simulation stops or a solve fails:
      meters show "—" and bulbs go dark; every other field is kept. */
  function ResetReading(it: Item): (r: Item)
    ensures r.id == it.id && r.kind == it.kind && r.x == it.x && r.y == it.y
    ensures r.netA == it.netA && r.netB == it.netB
    ensures it.kind.IsMeter() ==> r.props == it.props.(display := Some(Dash))
    ensures it.kind.Bulb? ==> r.props == it.props.(brightness := Some(0.0))
    ensures !it.kind.IsMeter() && !it.kind.Bulb? ==> r == it
  {
    if it.kind.IsMeter() then it.(props := it.props.(display := Some(Dash)))
    else if it.kind.Bulb? then it.(props := it.props.(brightness := Some(0.0)))
    else it
  }

  /** `items.map(...)` applying `ResetReading` to every item. */
  function ResetReadings(items: seq<Item>): (r: seq<Item>)
    ensures |r| == |items|
    ensures forall i :: 0 <= i < |items| ==> r[i] == ResetReading(items[i])
  {
    seq(|items|, i requires 0 <= i < |items| => ResetReading(items[i]))
  }
}
