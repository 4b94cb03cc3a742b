/** The React port's store (my-app/src/hooks/useVoltLabStore.jsx): the
    reducer, the pure computations inside the editing actions, and the
    provider as an object whose actions dispatch in sequence and push
    history.

    An action reads the state of the render it belongs to, so every
    payload it dispatches, and the snapshot `pushHistory` records, are
    taken from the state as it was before the action. Dispatches are
    applied one after the other to the latest state. */
module Store {
  import opened Common
  import opened Components
  import opened Topology
  import opened Utils
  import opened Defaults
  import opened History
  import opened Coords
  import opened CircuitBuilder

  /** `state.wire`: the pending wire's start node and preview point. */
  datatype WireState = WireState(startNodeId: Option<Id>, previewWorld: Option<Point>)

  const NoWire := WireState(None, None)

  /** A `SET_WIRE_STATE` payload: `None` for a key the patch does not
      carry, `Some(v)` for a key it sets (possibly to `null`). */
  datatype WirePatch = WirePatch(startNodeId: Option<Option<Id>>, previewWorld: Option<Option<Point>>)

  const ResetWire := WirePatch(Some(None), Some(None))

  datatype State = State(
    mode: string,
    running: bool,
    isRunning: bool,
    statusText: string,
    items: seq<Item>,
    nodes: seq<Node>,
    wires: seq<Wire>,
    selectedId: Option<Id>,
    cam: Cam,
    wire: WireState,
    sol: Option<DcResult>)

  /** `initialState`. */
  const Initial := State("select", false, false, "Ready", [], [], [], None, Cam(0.0, 0.0, 1.0), NoWire, None)

  /** The actions the reducer knows, and any other `type`. */
  datatype Action =
    | SetMode(mode: string)
    | SetStatus(text: string)
    | SetCam(cam: Cam)
    | SetSelected(id: Option<Id>)
    | SetItemsNodesWires(items: seq<Item>, nodes: seq<Node>, wires: seq<Wire>)
    | SetWireState(patch: WirePatch)
    | SetRunning(running: bool)
    | SetSolution(sol: Option<DcResult>)
    | Unrecognised(name: string)

  /** `{ ...state.wire, ...action.wire }`: a key the patch carries wins. */
  function Merge(w: WireState, p: WirePatch): (r: WireState)
    ensures p.startNodeId.None? ==> r.startNodeId == w.startNodeId
    ensures p.startNodeId.Some? ==> r.startNodeId == p.startNodeId.value
    ensures p.previewWorld.None? ==> r.previewWorld == w.previewWorld
    ensures p.previewWorld.Some? ==> r.previewWorld == p.previewWorld.value
  {
    WireState(p.startNodeId.GetOr(w.startNodeId), p.previewWorld.GetOr(w.previewWorld))
  }

  /** `reducer(state, action)` (lines 32-67). Each action replaces only
      the fields it names; `SET_ITEMS_NODES_WIRES` places the nodes again
      from their items. */
  function Reducer(s: State, a: Action, rotate: Rotation): (r: State)
    ensures a.SetItemsNodesWires? || (r.items == s.items && r.nodes == s.nodes && r.wires == s.wires)
    ensures a.SetMode? || r.mode == s.mode
    ensures a.SetStatus? || r.statusText == s.statusText
    ensures a.SetCam? || r.cam == s.cam
    ensures a.SetSelected? || r.selectedId == s.selectedId
    ensures a.SetRunning? || (r.running == s.running && r.isRunning == s.isRunning)
    ensures a.SetSolution? || r.sol == s.sol
    ensures a.SetMode? || a.SetWireState? || r.wire == s.wire
  {
    match a
    case SetMode(mode) => s.(mode := mode, wire := if mode == "wire" then s.wire else NoWire)
    case SetStatus(text) => s.(statusText := text)
    case SetCam(cam) => s.(cam := cam)
    case SetSelected(id) => s.(selectedId := id)
    case SetItemsNodesWires(items, nodes, wires) =>
      s.(items := items, nodes := RecalcAllNodes(items, nodes, rotate), wires := wires)
    case SetWireState(patch) => s.(wire := Merge(s.wire, patch))
    case SetRunning(running) => s.(running := running, isRunning := running)
    case SetSolution(sol) => s.(sol := sol)
    case Unrecognised(_) => s
  }

  /** The nodes sit where their items put them. */
  predicate Placed(s: State, rotate: Rotation) {
    s.nodes == RecalcAllNodes(s.items, s.nodes, rotate)
  }

  /** What every reachable state satisfies: nodes placed, and the two
      running flags equal. */
  predicate Consistent(s: State, rotate: Rotation) {
    Placed(s, rotate) && s.running == s.isRunning
  }

  lemma InitialConsistent(rotate: Rotation)
    ensures Consistent(Initial, rotate)
  {
  }

  /** Every action keeps the state consistent; `SET_ITEMS_NODES_WIRES`
      does because placing is idempotent. */
  lemma ReducerKeepsConsistent(s: State, a: Action, rotate: Rotation)
    requires Consistent(s, rotate)
    ensures Consistent(Reducer(s, a, rotate), rotate)
  {
    if a.SetItemsNodesWires? {
      RecalcAllIdempotent(a.items, a.nodes, rotate);
    }
  }

  /** After `SET_RUNNING` both flags hold the dispatched value; an action
      of unknown type returns the state unchanged. */
  lemma RunningAndUnknown(s: State, running: bool, name: string, rotate: Rotation)
    ensures Reducer(s, SetRunning(running), rotate).running == running
    ensures Reducer(s, SetRunning(running), rotate).isRunning == running
    ensures Reducer(s, Unrecognised(name), rotate) == s
  {
  }

  /** `SET_MODE` keeps the pending wire exactly when the new mode is
      "wire" (or there was none); any other mode clears it. */
  lemma SetModeWire(s: State, mode: string, rotate: Rotation)
    ensures Reducer(s, SetMode(mode), rotate).mode == mode
    ensures mode == "wire" ==> Reducer(s, SetMode(mode), rotate).wire == s.wire
    ensures mode != "wire" ==> Reducer(s, SetMode(mode), rotate).wire == NoWire
  {
  }

  /** Merging the same wire patch twice is merging it once, and the reset
      patch clears the wire state whatever it held. */
  lemma MergeLaws(w: WireState, p: WirePatch)
    ensures Merge(Merge(w, p), p) == Merge(w, p)
    ensures Merge(w, ResetWire) == NoWire
  {
  }

  /** Re-dispatching the items and nodes of a consistent state with new
      wires only replaces the wires. */
  lemma SameLayoutNewWires(s: State, wires: seq<Wire>, rotate: Rotation)
    requires Placed(s, rotate)
    ensures Reducer(s, SetItemsNodesWires(s.items, s.nodes, wires), rotate) == s.(wires := wires)
  {
  }

  /* ---------- addWire (lines 237-256) ---------- */

  /** The wire list after `addWire(a, b)`, or `None` when it returns early:
      an id is missing (`""`), the ids are equal, or a wire already joins
      them in either orientation. */
  function AddedWires(wires: seq<Wire>, a: Id, b: Id): (r: Option<seq<Wire>>)
    ensures r.None? <==> a == "" || b == "" || a == b || exists k :: 0 <= k < |wires| && Joins(wires[k], a, b)
    ensures r.Some? ==> r.value == wires + [Wire(a, b)]
  {
    if a == "" || b == "" || a == b then None
    else if exists k :: 0 <= k < |wires| && Joins(wires[k], a, b) then None
    else Some(wires + [Wire(a, b)])
  }

  /** No wire has a missing end or joins a node to itself, and no two
      wires join the same pair. */
  predicate Simple(wires: seq<Wire>) {
    (forall k :: 0 <= k < |wires| ==> wires[k].aNodeId != "" && wires[k].bNodeId != "" && wires[k].aNodeId != wires[k].bNodeId) &&
    (forall j, k :: 0 <= j < k < |wires| ==> !Joins(wires[j], wires[k].aNodeId, wires[k].bNodeId))
  }

  /** Wires added only through `addWire` stay simple. */
  lemma AddWireKeepsSimple(wires: seq<Wire>, a: Id, b: Id)
    requires Simple(wires)
    ensures AddedWires(wires, a, b).Some? ==> Simple(AddedWires(wires, a, b).value)
  {
    if AddedWires(wires, a, b).Some? {
      var w := AddedWires(wires, a, b).value;
      forall j, k | 0 <= j < k < |w| ensures !Joins(w[j], w[k].aNodeId, w[k].bNodeId) {
        if k == |wires| {
          assert !Joins(wires[j], a, b);
        }
      }
    }
  }

  /** Adding the same wire a second time, in either orientation, is
      ignored. */
  lemma AddWireTwice(wires: seq<Wire>, a: Id, b: Id)
    requires AddedWires(wires, a, b).Some?
    ensures AddedWires(AddedWires(wires, a, b).value, a, b).None?
    ensures AddedWires(AddedWires(wires, a, b).value, b, a).None?
  {
    var w := AddedWires(wires, a, b).value;
    assert Joins(w[|wires|], a, b) && Joins(w[|wires|], b, a);
  }

  /* ---------- deleteItem (lines 142-159) ---------- */

  /** `(x) => x.id !== id`. */
  function OtherItem(id: Id): Item -> bool {
    (x: Item) => x.id != id
  }

  /** `(n) => n.itemId !== id`. */
  function OtherItemsNode(id: Id): Node -> bool {
    (n: Node) => n.itemId != id
  }

  /** `(w) => alive.has(w.aNodeId) && alive.has(w.bNodeId)`. */
  function BothAlive(alive: set<Id>): Wire -> bool {
    (w: Wire) => w.aNodeId in alive && w.bNodeId in alive
  }

  /** `items.filter((x) => x.id !== id)`. */
  function ItemsWithout(items: seq<Item>, id: Id): (r: seq<Item>)
    ensures |r| <= |items|
    ensures forall x :: x in r <==> x in items && x.id != id
  {
    Filter(items, OtherItem(id))
  }

  /** `nodes.filter((n) => n.itemId !== id)`. */
  function NodesWithout(nodes: seq<Node>, id: Id): (r: seq<Node>)
    ensures |r| <= |nodes|
    ensures forall n :: n in r <==> n in nodes && n.itemId != id
  {
    Filter(nodes, OtherItemsNode(id))
  }

  /** `wires.filter((w) => alive.has(w.aNodeId) && alive.has(w.bNodeId))`. */
  function WiresAmong(wires: seq<Wire>, alive: set<Id>): (r: seq<Wire>)
    ensures |r| <= |wires|
    ensures forall w :: w in r <==> w in wires && w.aNodeId in alive && w.bNodeId in alive
  {
    Filter(wires, BothAlive(alive))
  }

  /** The new items, nodes and wires of `deleteItem(id)`, or `None` when
      no item has that id. */
  function Delete(s: State, id: Id): (r: Option<(seq<Item>, seq<Node>, seq<Wire>)>)
    ensures r.None? <==> forall x :: x in s.items ==> x.id != id
  {
    if forall x :: x in s.items ==> x.id != id then None
    else
      var nodes := NodesWithout(s.nodes, id);
      Some((ItemsWithout(s.items, id), nodes, WiresAmong(s.wires, NodeIds(nodes))))
  }

  /** Deleting removes the item and every node of it, keeps every other
      item, node and wire between surviving nodes, and leaves no wire
      with a deleted end. */
  lemma DeleteRemovesExactly(s: State, id: Id)
    requires Delete(s, id).Some?
    ensures var (items, nodes, wires) := Delete(s, id).value;
            (forall x :: x in items <==> x in s.items && x.id != id) &&
            (forall n :: n in nodes <==> n in s.nodes && n.itemId != id) &&
            (forall w :: w in wires ==> w in s.wires && w.aNodeId in NodeIds(nodes) && w.bNodeId in NodeIds(nodes)) &&
            (forall w :: w in s.wires && w.aNodeId in NodeIds(nodes) && w.bNodeId in NodeIds(nodes) ==> w in wires)
  {
  }

  /** The three filters keep what they keep in its order and with its
      repetitions: each new list is the old one read at the strictly
      increasing positions of every kept entry. Node order decides which
      net comes first, and item order the order of the sources. */
  lemma DeleteKeepsOrder(s: State, id: Id)
    requires Delete(s, id).Some?
    ensures var (items, nodes, wires) := Delete(s, id).value;
            Picks(s.items, OtherItem(id), 0, KeptFrom(s.items, OtherItem(id), 0), items) &&
            Picks(s.nodes, OtherItemsNode(id), 0, KeptFrom(s.nodes, OtherItemsNode(id), 0), nodes) &&
            Picks(s.wires, BothAlive(NodeIds(nodes)), 0, KeptFrom(s.wires, BothAlive(NodeIds(nodes)), 0), wires)
  {
    var nodes := NodesWithout(s.nodes, id);
    FilterKeepsOrder(s.items, OtherItem(id), 0);
    FilterKeepsOrder(s.nodes, OtherItemsNode(id), 0);
    FilterKeepsOrder(s.wires, BothAlive(NodeIds(nodes)), 0);
    assert s.items[0..] == s.items && s.nodes[0..] == s.nodes && s.wires[0..] == s.wires;
  }

  /** Every wire end names a node. */
  predicate Closed(nodes: seq<Node>, wires: seq<Wire>) {
    forall k :: 0 <= k < |wires| ==> wires[k].aNodeId in NodeIds(nodes) && wires[k].bNodeId in NodeIds(nodes)
  }

  /** After a delete and the placement that follows it, every wire end
      still names a node, whatever the wires were before. */
  lemma DeleteLeavesClosed(s: State, id: Id, rotate: Rotation)
    requires Delete(s, id).Some?
    ensures var (items, nodes, wires) := Delete(s, id).value;
            Closed(RecalcAllNodes(items, nodes, rotate), wires)
  {
    var (items, nodes, wires) := Delete(s, id).value;
    var placed := RecalcAllNodes(items, nodes, rotate);
    assert NodeIds(placed) == NodeIds(nodes) by {
      forall i | 0 <= i < |nodes| ensures placed[i].id == nodes[i].id {
        assert placed[i].(x := nodes[i].x, y := nodes[i].y) == nodes[i];
      }
    }
    forall k | 0 <= k < |wires|
      ensures wires[k].aNodeId in NodeIds(placed) && wires[k].bNodeId in NodeIds(placed)
    {
      assert wires[k] in wires;
    }
  }

  /* ---------- setCam (lines 114-121) ---------- */

  /** A `setCam` patch: the keys it carries. */
  datatype CamPatch = CamPatch(x: Option<real>, y: Option<real>, z: Option<real>)

  const MinZoom: real := 0.25
  const MaxZoom: real := 3.0

  /** `{ ...state.cam, ...patch, z: clamp(patch.z ?? state.cam.z, 0.25, 3) }`. */
  function PatchCam(cam: Cam, p: CamPatch): (r: Cam)
    ensures MinZoom <= r.z <= MaxZoom
    ensures p.z.None? && MinZoom <= cam.z <= MaxZoom ==> r.z == cam.z
    ensures p.z.Some? && MinZoom <= p.z.value <= MaxZoom ==> r.z == p.z.value
    ensures r.x == p.x.GetOr(cam.x) && r.y == p.y.GetOr(cam.y)
  {
    Cam(p.x.GetOr(cam.x), p.y.GetOr(cam.y), Clamp(p.z.GetOr(cam.z), MinZoom, MaxZoom))
  }

  /** Applying a patch twice is applying it once, and the resulting camera
      always converts between screen and world both ways. */
  lemma PatchCamLaws(cam: Cam, p: CamPatch, w: Point)
    ensures PatchCam(PatchCam(cam, p), p) == PatchCam(cam, p)
    ensures ScreenToWorld(WorldToScreen(w, PatchCam(cam, p)), PatchCam(cam, p)) == w
  {
    var c := PatchCam(cam, p);
    ClampIdempotent(p.z.GetOr(cam.z), MinZoom, MaxZoom);
    WorldScreenWorld(w, c);
  }

  /* ---------- stop (lines 272-285) ---------- */

  /** The item lookup used by placement sees reset items as the items
      they were reset from. */
  lemma {:induction false} ItemByIdReset(items: seq<Item>, id: Id)
    ensures ItemById(ResetReadings(items), id) ==
            match ItemById(items, id) case None => None case Some(it) => Some(ResetReading(it))
    decreases |items|
  {
    if items != [] {
      var init := items[..|items| - 1];
      assert ResetReadings(items)[..|items| - 1] == ResetReadings(init);
      ItemByIdReset(init, id);
    }
  }

  /** Placement by a reset item is placement by the item itself. */
  lemma PlaceReset(n: Node, it: Item, rotate: Rotation)
    ensures Place(n, ResetReading(it), rotate) == Place(n, it, rotate)
  {
    var r := ResetReading(it);
    assert r.props.sizePct == it.props.sizePct && r.props.rot == it.props.rot;
  }

  /** Resetting readings moves no node: placement reads an item's
      position, size and rotation, and the reset keeps them. */
  lemma ResetKeepsPlacement(items: seq<Item>, nodes: seq<Node>, rotate: Rotation)
    ensures RecalcAllNodes(ResetReadings(items), nodes, rotate) == RecalcAllNodes(items, nodes, rotate)
  {
    var reset := ResetReadings(items);
    var after := RecalcAllNodes(reset, nodes, rotate);
    var before := RecalcAllNodes(items, nodes, rotate);
    forall i | 0 <= i < |nodes| ensures after[i] == before[i] {
      var n := nodes[i];
      ItemByIdReset(items, n.itemId);
      match ItemById(items, n.itemId)
      case None =>
      case Some(it) =>
        if n.lx.Some? && n.ly.Some? {
          PlaceReset(n, it, rotate);
        }
    }
  }

  /* ---------- restoreSnapshot (lines 76-97) ---------- */

  /** `getSnapshot()`. */
  function SnapshotOf(s: State): (snap: Snapshot)
    ensures snap.items == s.items && snap.nodes == s.nodes && snap.wires == s.wires
    ensures snap.selectedId == s.selectedId && snap.cam == s.cam && snap.mode == s.mode
  {
    Snapshot(s.items, s.nodes, s.wires, s.selectedId, s.cam, s.mode)
  }

  /** The dispatches of `restoreSnapshot(snap)`, in order. A snapshot
      always carries every field, so the `??` fallbacks never apply. */
  function RestoreActions(snap: Snapshot): (r: seq<Action>)
    ensures |r| == 7
  {
    [SetRunning(false), SetSolution(None), SetItemsNodesWires(snap.items, snap.nodes, snap.wires),
     SetSelected(snap.selectedId), SetCam(snap.cam), SetMode(snap.mode), SetWireState(ResetWire)]
  }

  /** Dispatching a sequence of actions, first to last. */
  function Run(s: State, actions: seq<Action>, rotate: Rotation): State
    decreases |actions|
  {
    if actions == [] then s else Run(Reducer(s, actions[0], rotate), actions[1..], rotate)
  }

  /** Restoring stops the simulation, clears the pending wire and brings
      back every field of the snapshot, with the nodes placed again; the
      status line is kept. */
  lemma RestoreSpec(s: State, snap: Snapshot, rotate: Rotation)
    ensures var r := Run(s, RestoreActions(snap), rotate);
            r == State(snap.mode, false, false, s.statusText, snap.items, RecalcAllNodes(snap.items, snap.nodes, rotate),
                       snap.wires, snap.selectedId, snap.cam, NoWire, None)
  {
    var a := RestoreActions(snap);
    var s1 := Reducer(s, a[0], rotate);
    var s2 := Reducer(s1, a[1], rotate);
    var s3 := Reducer(s2, a[2], rotate);
    var s4 := Reducer(s3, a[3], rotate);
    var s5 := Reducer(s4, a[4], rotate);
    var s6 := Reducer(s5, a[5], rotate);
    var s7 := Reducer(s6, a[6], rotate);
    assert Run(s6, a[6..], rotate) == s7 by {
      assert a[6..][0] == a[6] && a[6..][1..] == [];
    }
    assert Run(s5, a[5..], rotate) == s7 by {
      assert a[5..][0] == a[5] && a[5..][1..] == a[6..];
    }
    assert Run(s4, a[4..], rotate) == s7 by {
      assert a[4..][0] == a[4] && a[4..][1..] == a[5..];
    }
    assert Run(s3, a[3..], rotate) == s7 by {
      assert a[3..][0] == a[3] && a[3..][1..] == a[4..];
    }
    assert Run(s2, a[2..], rotate) == s7 by {
      assert a[2..][0] == a[2] && a[2..][1..] == a[3..];
    }
    assert Run(s1, a[1..], rotate) == s7 by {
      assert a[1..][0] == a[1] && a[1..][1..] == a[2..];
    }
  }

  /** Restoring the snapshot of a consistent state gives that snapshot
      back exactly, whatever the state it is restored into. */
  lemma RestoreRoundTrip(s: State, t: State, rotate: Rotation)
    requires Placed(s, rotate)
    ensures SnapshotOf(Run(t, RestoreActions(SnapshotOf(s)), rotate)) == SnapshotOf(s)
  {
    RestoreSpec(t, SnapshotOf(s), rotate);
  }

  /** An edit that pushed the snapshot of a consistent state is undone
      exactly: the next undo restores that snapshot. */
  lemma UndoAfterEdit(h: Stacks, tag: string, before: State, now: State, rotate: Rotation)
    requires Placed(before, rotate)
    ensures var (_, back) := UndoSpec(PushSpec(h, tag, SnapshotOf(before)), SnapshotOf(now));
            back == Some(SnapshotOf(before)) &&
            SnapshotOf(Run(now, RestoreActions(back.value), rotate)) == SnapshotOf(before)
  {
    PushThenUndo(h, tag, SnapshotOf(before), SnapshotOf(now));
    RestoreRoundTrip(before, now, rotate);
  }

  /** `VoltLabProvider`: the reducer's state and the history object. */
  class Provider {
    var state: State
    const history: HistoryCore
    /** The rotation used when nodes are placed. */
    const rotate: Rotation

    predicate Valid()
      reads this
    {
      Consistent(state, rotate)
    }

    constructor (rotate: Rotation)
      ensures state == Initial && this.rotate == rotate
      ensures fresh(history) && history.Contents() == Empty
      ensures Valid()
    {
      state := Initial;
      history := new HistoryCore();
      this.rotate := rotate;
    }

    /** `dispatch(action)`. */
    method Dispatch(a: Action)
      requires Valid()
      modifies this
      ensures state == Reducer(old(state), a, rotate)
      ensures Valid()
    {
      ReducerKeepsConsistent(state, a, rotate);
      state := Reducer(state, a, rotate);
    }

    /** `setStatus(text)`. */
    method SetStatus(text: string)
      requires Valid()
      modifies this
      ensures state == old(state).(statusText := text)
      ensures Valid()
    {
      Dispatch(Action.SetStatus(text));
    }

    /** `setMode(mode)`: the mode, the pending wire as `SET_MODE` leaves
      it, and the status line. */
    method SetMode(mode: string)
      requires Valid()
      modifies this
      ensures state == Reducer(old(state), Action.SetMode(mode), rotate).(statusText := if mode == "wire" then "Wire mode" else "Select mode")
      ensures Valid()
    {
      Dispatch(Action.SetMode(mode));
      SetStatus(if mode == "wire" then "Wire mode" else "Select mode");
    }

    /** `setCam(patch)`. */
    method SetCam(p: CamPatch)
      requires Valid()
      modifies this
      ensures state == old(state).(cam := PatchCam(old(state).cam, p))
      ensures Valid()
    {
      Dispatch(Action.SetCam(PatchCam(state.cam, p)));
    }

    /** `addWire(aNodeId, bNodeId)`: on an early return nothing happens,
      otherwise only the wires change and the state before the action is
      pushed. */
    method AddWire(a: Id, b: Id)
      requires Valid()
      modifies this, history
      ensures AddedWires(old(state).wires, a, b).None? ==>
                state == old(state) && history.Contents() == old(history.Contents())
      ensures AddedWires(old(state).wires, a, b).Some? ==>
                state == old(state).(wires := AddedWires(old(state).wires, a, b).value) &&
                history.Contents() == PushSpec(old(history.Contents()), "wire", SnapshotOf(old(state)))
      ensures Valid()
    {
      var s := state;
      var w := AddedWires(s.wires, a, b);
      if w.None? {
        return;
      }
      SameLayoutNewWires(s, w.value, rotate);
      Dispatch(SetItemsNodesWires(s.items, s.nodes, w.value));
      history.Push("wire", SnapshotOf(s));
    }

    /** `deleteItem(id)`: nothing for an unknown id; otherwise the item,
      its nodes and the wires that lose an end go, the selection and the
      solution are cleared, the simulation stops and the pending wire is
      dropped. */
    method DeleteItem(id: Id)
      requires Valid()
      modifies this, history
      ensures Delete(old(state), id).None? ==>
                state == old(state) && history.Contents() == old(history.Contents())
      ensures Delete(old(state), id).Some? ==>
                var (items, nodes, wires) := Delete(old(state), id).value;
                state == old(state).(items := items, nodes := RecalcAllNodes(items, nodes, rotate), wires := wires,
                                     selectedId := None, sol := None, running := false, isRunning := false,
                                     wire := NoWire) &&
                history.Contents() == PushSpec(old(history.Contents()), "delete", SnapshotOf(old(state)))
      ensures Valid()
    {
      var s := state;
      var r := Delete(s, id);
      if r.None? {
        return;
      }
      var (items, nodes, wires) := r.value;
      Remove(items, nodes, wires);
      history.Push("delete", SnapshotOf(s));
    }

    /** The five dispatches of `deleteItem` after the filtering. */
    method Remove(items: seq<Item>, nodes: seq<Node>, wires: seq<Wire>)
      requires Valid()
      modifies this
      ensures state == old(state).(items := items, nodes := RecalcAllNodes(items, nodes, rotate), wires := wires,
                                   selectedId := None, sol := None, running := false, isRunning := false,
                                   wire := NoWire)
      ensures Valid()
    {
      var placed := state.(items := items, nodes := RecalcAllNodes(items, nodes, rotate), wires := wires);
      Dispatch(SetItemsNodesWires(items, nodes, wires));
      assert state == placed;
      Dispatch(SetSelected(None));
      Dispatch(SetSolution(None));
      Dispatch(SetRunning(false));
      assert state == placed.(selectedId := None, sol := None, running := false, isRunning := false);
      MergeLaws(placed.wire, ResetWire);
      Dispatch(SetWireState(ResetWire));
    }

    /** `clearWires()`. */
    method ClearWires()
      requires Valid()
      modifies this, history
      ensures state == old(state).(wires := [], wire := NoWire, statusText := "Cleared wires")
      ensures history.Contents() == PushSpec(old(history.Contents()), "clear wires", SnapshotOf(old(state)))
      ensures Valid()
    {
      var s := state;
      SameLayoutNewWires(s, [], rotate);
      Dispatch(SetItemsNodesWires(s.items, s.nodes, []));
      Dispatch(SetWireState(ResetWire));
      history.Push("clear wires", SnapshotOf(s));
      SetStatus("Cleared wires");
    }

    /** `stop()`: every reading reset, nothing moved, no history entry. */
    method Stop()
      requires Valid()
      modifies this
      ensures state == old(state).(running := false, isRunning := false, sol := None,
                                   items := ResetReadings(old(state).items), statusText := "Stopped")
      ensures Valid()
    {
      var s := state;
      Dispatch(SetRunning(false));
      Dispatch(SetSolution(None));
      ResetKeepsPlacement(s.items, s.nodes, rotate);
      Dispatch(SetItemsNodesWires(ResetReadings(s.items), s.nodes, s.wires));
      Dispatch(Action.SetStatus("Stopped"));
    }

    /** `restoreSnapshot(snap)`. */
    method Restore(snap: Snapshot)
      requires Valid()
      modifies this
      ensures state == Run(old(state), RestoreActions(snap), rotate)
      ensures Valid()
    {
      RestoreSpec(state, snap, rotate);
      RecalcAllIdempotent(snap.items, snap.nodes, rotate);
      state := Run(state, RestoreActions(snap), rotate);
    }

    /** `undo()`: the history's undo with the current snapshot, then the
      restore of what it popped. */
    method Undo()
      requires Valid()
      modifies this, history
      ensures var (h, back) := UndoSpec(old(history.Contents()), SnapshotOf(old(state)));
              history.Contents() == h &&
              state == (if back.None? then old(state) else Run(old(state), RestoreActions(back.value), rotate))
      ensures Valid()
    {
      var back := history.Undo(SnapshotOf(state));
      if back.Some? {
        Restore(back.value);
      }
    }

    /** `redo()`. */
    method Redo()
      requires Valid()
      modifies this, history
      ensures var (h, fwd) := RedoSpec(old(history.Contents()), SnapshotOf(old(state)));
              history.Contents() == h &&
              state == (if fwd.None? then old(state) else Run(old(state), RestoreActions(fwd.value), rotate))
      ensures Valid()
    {
      var fwd := history.Redo(SnapshotOf(state));
      if fwd.Some? {
        Restore(fwd.value);
      }
    }
  }
}
