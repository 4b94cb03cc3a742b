/** The editing state of the standalone script (app.js lines 60-90) and
    the operations that change it: the bounded undo history (lines
    113-173), deleting an item (lines 529-541), terminal nodes and wires
    (lines 585-605, 679-685), stopping the simulation (lines 983-1001) and
    the refresh after a solve (lines 1323-1378).

    Each method of `Workspace` updates the fields in place as the script
    does, and is tied to a function of the whole state (`State`) about
    which the properties are proved. Ids from `uid()` are parameters. */
module ScriptWorkspace {
  import opened Common
  import opened Components
  import T = Topology
  import opened ScriptTopology
  import opened ScriptCircuit
  import opened ScriptMeasure

  /** `history.max`. */
  const MaxHistory: nat := 80

  /** What `snapshotState()` copies. */
  datatype Snapshot = Snapshot(
    items: seq<Item>,
    nodes: seq<Node>,
    wires: seq<Wire>,
    selectedId: Option<Id>,
    cam: T.Cam,
    mode: string)

  /** `history.past` and `history.future`, tops last. */
  datatype History = History(past: seq<Snapshot>, future: seq<Snapshot>)

  /** The fields of `state` that the modelled operations read or write. */
  datatype State = State(
    items: seq<Item>,
    nodes: seq<Node>,
    wires: seq<Wire>,
    selectedId: Option<Id>,
    cam: T.Cam,
    mode: string,
    wireStartNodeId: Option<Id>,
    running: bool,
    sol: Option<DcSolution>,
    history: History,
    muted: bool)

  const Initial: State :=
    State([], [], [], None, T.Cam(0.0, 0.0, 1.0), "select", None, false, None, History([], []), false)

  function SnapOf(s: State): Snapshot {
    Snapshot(s.items, s.nodes, s.wires, s.selectedId, s.cam, s.mode)
  }

  /* ---------------------------------------------------------------
     History (lines 149-173)
     --------------------------------------------------------------- */

  /** Lines 151-153: push, then drop the oldest once past exceeds 80. */
  function Pushed(past: seq<Snapshot>, snap: Snapshot): seq<Snapshot> {
    var p := past + [snap];
    if |p| > MaxHistory then p[1..] else p
  }

  /** Pushing keeps the newest snapshots, the pushed one on top; below the
      bound nothing is dropped, at the bound exactly the oldest is. */
  lemma PushedKeepsNewest(past: seq<Snapshot>, snap: Snapshot)
    requires |past| <= MaxHistory
    ensures var r := Pushed(past, snap);
            |r| <= MaxHistory && |r| >= 1 && r[|r| - 1] == snap &&
            (|past| < MaxHistory ==> r == past + [snap]) &&
            (|past| == MaxHistory ==> r == past[1..] + [snap])
  {
    var p := past + [snap];
    if |past| == MaxHistory {
      assert p[1..] == past[1..] + [snap];
    }
  }

  /** `pushHistory()`: nothing while muted; otherwise the current snapshot
      is pushed and future is emptied. */
  function PushSpec(s: State): State {
    if s.muted then s
    else s.(history := History(Pushed(s.history.past, SnapOf(s)), []))
  }

  /** `restoreSnapshot(snap)`: the simulation stops, the snapshot's fields
      come back (mode "select" when empty), the wire tool and the solution
      are cleared, and the history ends unmuted. */
  function RestoreSpec(s: State, snap: Snapshot): State {
    s.(items := snap.items, nodes := snap.nodes, wires := snap.wires, selectedId := snap.selectedId,
       cam := snap.cam, mode := if snap.mode == "" then "select" else snap.mode,
       wireStartNodeId := None, running := false, sol := None, muted := false)
  }

  /** `undo()`. */
  function UndoSpec(s: State): State {
    var past := s.history.past;
    if past == [] then s
    else RestoreSpec(s.(history := History(past[..|past| - 1], s.history.future + [SnapOf(s)])), past[|past| - 1])
  }

  /** `redo()`: future is not cleared. */
  function RedoSpec(s: State): State {
    var future := s.history.future;
    if future == [] then s
    else RestoreSpec(s.(history := History(s.history.past + [SnapOf(s)], future[..|future| - 1])), future[|future| - 1])
  }

  /** Undo and redo do nothing on an empty stack, and otherwise move one
      snapshot across and restore the one they took: the sum of the two
      stack sizes never changes. */
  lemma UndoRedoMove(s: State)
    ensures s.history.past == [] ==> UndoSpec(s) == s
    ensures s.history.future == [] ==> RedoSpec(s) == s
    ensures s.history.past != [] ==>
              var u := UndoSpec(s);
              SnapOf(u).items == s.history.past[|s.history.past| - 1].items &&
              u.history.future[|u.history.future| - 1] == SnapOf(s) && !u.running && u.sol.None?
    ensures s.history.future != [] ==>
              var r := RedoSpec(s);
              SnapOf(r).items == s.history.future[|s.history.future| - 1].items &&
              r.history.past[|r.history.past| - 1] == SnapOf(s) && !r.running && r.sol.None?
    ensures |UndoSpec(s).history.past| + |UndoSpec(s).history.future| == |s.history.past| + |s.history.future|
    ensures |RedoSpec(s).history.past| + |RedoSpec(s).history.future| == |s.history.past| + |s.history.future|
  {
  }

  /* ---------------------------------------------------------------
     Terminals and wires (lines 529-535, 585-605, 679-685)
     --------------------------------------------------------------- */

  /** Every wire joins two existing nodes. */
  predicate Closed(nodes: seq<Node>, wires: seq<Wire>) {
    forall w :: w in wires ==> w.a in Ids(nodes) && w.b in Ids(nodes)
  }

  /** `(w.a === a && w.b === b) || (w.a === b && w.b === a)`. */
  predicate Joins(w: Wire, a: Id, b: Id) {
    (w.a == a && w.b == b) || (w.a == b && w.b == a)
  }

  /** `wires.some(...)`: some wire already joins `a` and `b`. */
  predicate Duplicate(wires: seq<Wire>, a: Id, b: Id) {
    exists w :: w in wires && Joins(w, a, b)
  }

  /** No wire is a loop and no two wires join the same two nodes. */
  predicate Simple(wires: seq<Wire>) {
    (forall w :: w in wires ==> w.a != w.b) &&
    (forall w1, w2 :: w1 in wires && w2 in wires && Joins(w1, w2.a, w2.b) ==> w1 == w2)
  }

  /** At most one terminal node per item and side. */
  predicate UniqueTerminals(nodes: seq<Node>) {
    forall n1, n2 :: n1 in nodes && n2 in nodes && n1.kind.Comp? && n1.kind == n2.kind ==> n1 == n2
  }

  /** `addWire(a, b)`: no change for a loop or a duplicate; otherwise a
      history push and one new wire. */
  function AddWireSpec(s: State, a: Id, b: Id, freshId: Id): State {
    if a == b || Duplicate(s.wires, a, b) then s
    else PushSpec(s).(wires := s.wires + [Wire(freshId, a, b)])
  }

  /** A new wire between two distinct, not yet joined, existing nodes
      keeps the wiring closed and simple; any other call changes nothing;
      and a second call with the same ends changes nothing. */
  lemma AddWireKeepsSimple(s: State, a: Id, b: Id, freshId: Id, freshId': Id)
    requires Simple(s.wires) && Closed(s.nodes, s.wires)
    requires a in Ids(s.nodes) && b in Ids(s.nodes)
    ensures var t := AddWireSpec(s, a, b, freshId);
            Simple(t.wires) && Closed(t.nodes, t.wires) &&
            Duplicate(t.wires, a, b) == (a != b) &&
            AddWireSpec(t, a, b, freshId') == t
    ensures a == b || Duplicate(s.wires, a, b) <==> AddWireSpec(s, a, b, freshId) == s
    ensures a != b && !Duplicate(s.wires, a, b) ==>
              AddWireSpec(s, a, b, freshId).wires == s.wires + [Wire(freshId, a, b)]
  {
    var t := AddWireSpec(s, a, b, freshId);
    var w := Wire(freshId, a, b);
    if a != b && !Duplicate(s.wires, a, b) {
      assert w in t.wires && Joins(w, a, b);
      forall w1, w2 | w1 in t.wires && w2 in t.wires && Joins(w1, w2.a, w2.b) ensures w1 == w2 {
        if w1 == w && w2 != w {
          assert Joins(w2, a, b);
        }
      }
      assert t != s by {
        assert |t.wires| == |s.wires| + 1;
      }
    }
  }

  /** `ensureNodeForComp(itemId, side)`: the id of the existing terminal
      node, or of a new one. */
  function EnsureNodeSpec(s: State, itemId: Id, side: Side, freshId: Id): (State, Id) {
    match FindTerminal(s.nodes, itemId, side)
    case Some(i) => (s, s.nodes[i].id)
    case None => (s.(nodes := s.nodes + [Node(freshId, Comp(itemId, side))]), freshId)
  }

  /** The returned id is that of a terminal node on that side of the item;
      a node is added only when there is none, so terminals stay unique; the
      wiring stays closed; and a second call returns the same id and
      changes nothing. */
  lemma EnsureNodeUnique(s: State, itemId: Id, side: Side, freshId: Id, freshId': Id)
    requires UniqueTerminals(s.nodes) && Closed(s.nodes, s.wires)
    ensures var (t, id) := EnsureNodeSpec(s, itemId, side, freshId);
            (exists n :: n in t.nodes && n.id == id && IsTerminal(n, itemId, side)) &&
            UniqueTerminals(t.nodes) && Closed(t.nodes, t.wires) &&
            t.(nodes := s.nodes) == s &&
            ((exists n :: n in s.nodes && IsTerminal(n, itemId, side)) ==> t == s) &&
            EnsureNodeSpec(t, itemId, side, freshId') == (t, id)
  {
    match FindTerminal(s.nodes, itemId, side)
    case Some(i) =>
      assert s.nodes[i] in s.nodes;
    case None =>
      AddTerminalKeeps(s.nodes, s.wires, itemId, side, freshId);
      var n := Node(freshId, Comp(itemId, side));
      assert n in s.nodes + [n];
  }

  /** Appending the missing terminal node keeps terminals unique and the
      wiring closed, and the node is then the one found. */
  lemma AddTerminalKeeps(nodes: seq<Node>, wires: seq<Wire>, itemId: Id, side: Side, freshId: Id)
    requires UniqueTerminals(nodes) && Closed(nodes, wires)
    requires FindTerminal(nodes, itemId, side).None?
    ensures var nodes' := nodes + [Node(freshId, Comp(itemId, side))];
            UniqueTerminals(nodes') && Closed(nodes', wires) &&
            FindTerminal(nodes', itemId, side) == Some(|nodes|)
  {
    var n := Node(freshId, Comp(itemId, side));
    var nodes' := nodes + [n];
    forall n1, n2 | n1 in nodes' && n2 in nodes' && n1.kind.Comp? && n1.kind == n2.kind ensures n1 == n2 {
      if n1 == n && n2 != n {
        assert n2 in nodes && IsTerminal(n2, itemId, side);
      }
    }
    forall w | w in wires ensures w.a in Ids(nodes') && w.b in Ids(nodes') {
      var i :| 0 <= i < |nodes| && nodes[i].id == w.a;
      var j :| 0 <= j < |nodes| && nodes[j].id == w.b;
      assert nodes'[i] == nodes[i] && nodes'[j] == nodes[j];
    }
    match FindTerminal(nodes', itemId, side)
    case None =>
      assert IsTerminal(nodes'[|nodes|], itemId, side);
    case Some(k) =>
      assert k == |nodes|;
  }

  /** The ids of the item's terminal nodes, `attachedNodeIds`. */
  function Attached(nodes: seq<Node>, itemId: Id): (ids: set<Id>)
    ensures forall id :: id in ids <==> exists n :: n in nodes && n.id == id && n.kind.Comp? && n.kind.itemId == itemId
  {
    set n | n in nodes && n.kind.Comp? && n.kind.itemId == itemId :: n.id
  }

  function KeepWires(wires: seq<Wire>, attached: set<Id>): seq<Wire> {
    Filter(wires, (w: Wire) => w.a !in attached && w.b !in attached)
  }

  function KeepNodes(nodes: seq<Node>, attached: set<Id>): seq<Node> {
    Filter(nodes, (n: Node) => n.id !in attached)
  }

  function KeepItems(items: seq<Item>, id: Id): seq<Item> {
    Filter(items, (it: Item) => it.id != id)
  }

  /** `deleteItem(id)`: a history push, then the item, its terminal nodes
      and every wire touching one of them go, and the selection is cleared
      if it was the item. */
  function DeleteSpec(s: State, id: Id): State {
    var attached := Attached(s.nodes, id);
    PushSpec(s).(wires := KeepWires(s.wires, attached), nodes := KeepNodes(s.nodes, attached),
                 items := KeepItems(s.items, id),
                 selectedId := if s.selectedId == Some(id) then None else s.selectedId)
  }

  /** After a delete the item, every node carrying one of its terminal
      ids and every wire touching one go, and everything else is kept. */
  lemma DeleteCascades(s: State, id: Id)
    ensures var t := DeleteSpec(s, id);
            var attached := Attached(s.nodes, id);
            (forall it :: it in t.items <==> it in s.items && it.id != id) &&
            (forall n :: n in t.nodes <==> n in s.nodes && n.id !in attached) &&
            (forall w :: w in t.wires <==> w in s.wires && w.a !in attached && w.b !in attached) &&
            (forall n :: n in t.nodes ==> !(n.kind.Comp? && n.kind.itemId == id)) &&
            t.selectedId != Some(id) &&
            (s.selectedId != Some(id) ==> t.selectedId == s.selectedId)
  {
  }

  /** Dropping the wires that touch a removed id keeps the wiring closed. */
  lemma KeepClosed(nodes: seq<Node>, wires: seq<Wire>, attached: set<Id>)
    requires Closed(nodes, wires)
    ensures Closed(KeepNodes(nodes, attached), KeepWires(wires, attached))
  {
    var nodes', wires' := KeepNodes(nodes, attached), KeepWires(wires, attached);
    forall w | w in wires' ensures w.a in Ids(nodes') && w.b in Ids(nodes') {
      var i :| 0 <= i < |nodes| && nodes[i].id == w.a;
      var j :| 0 <= j < |nodes| && nodes[j].id == w.b;
      assert nodes[i] in nodes' && nodes[j] in nodes';
      var i' :| 0 <= i' < |nodes'| && nodes'[i'] == nodes[i];
      var j' :| 0 <= j' < |nodes'| && nodes'[j'] == nodes[j];
    }
  }

  /** A closed, simple wiring with unique terminals stays so after a
      delete. */
  lemma DeleteKeepsWiring(s: State, id: Id)
    requires Closed(s.nodes, s.wires) && Simple(s.wires) && UniqueTerminals(s.nodes)
    ensures var t := DeleteSpec(s, id);
            Closed(t.nodes, t.wires) && Simple(t.wires) && UniqueTerminals(t.nodes)
  {
    KeepClosed(s.nodes, s.wires, Attached(s.nodes, id));
  }

  /** `clearWires()`: a history push, then no wires, only terminal nodes,
      and no wire in progress. */
  function ClearWiresSpec(s: State): State {
    PushSpec(s).(wires := [], nodes := Filter(s.nodes, (n: Node) => n.kind.Comp?), wireStartNodeId := None)
  }

  /** Clearing leaves every terminal node and no free one, and the wiring
      is trivially closed and simple. */
  lemma ClearWiresKeepsTerminals(s: State)
    ensures var t := ClearWiresSpec(s);
            (forall n :: n in t.nodes <==> n in s.nodes && n.kind.Comp?) &&
            t.wires == [] && Closed(t.nodes, t.wires) && Simple(t.wires) &&
            (UniqueTerminals(s.nodes) ==> UniqueTerminals(t.nodes)) &&
            t.items == s.items && t.selectedId == s.selectedId
  {
  }

  /** `stopSimulation(silent)`: not running, no solution, meters show "—"
      and bulbs are dark. */
  function StopSpec(s: State): State {
    s.(running := false, sol := None, items := ResetReadings(s.items))
  }

  /** Stopping changes nothing but the readings, and stopping twice is
      stopping once. */
  lemma StopResets(s: State)
    ensures var t := StopSpec(s);
            !t.running && t.sol.None? && |t.items| == |s.items| &&
            (forall i :: 0 <= i < |s.items| ==>
               t.items[i].id == s.items[i].id && t.items[i].kind == s.items[i].kind &&
               (s.items[i].kind.IsMeter() ==> t.items[i].props.display == Some(Dash)) &&
               (s.items[i].kind.Bulb? ==> t.items[i].props.brightness == Some(0.0))) &&
            t.(items := s.items, running := s.running, sol := s.sol) == s &&
            StopSpec(t) == t
  {
    var t := StopSpec(s);
    assert ResetReadings(t.items) == t.items by {
      forall i | 0 <= i < |t.items| ensures ResetReading(t.items[i]) == t.items[i] {
      }
    }
  }

  /* ---------------------------------------------------------------
     The invariant every operation keeps
     --------------------------------------------------------------- */

  /** A snapshot has a mode and a closed, simple wiring with unique
      terminals. */
  predicate Sound(snap: Snapshot) {
    snap.mode != "" && Closed(snap.nodes, snap.wires) && Simple(snap.wires) && UniqueTerminals(snap.nodes)
  }

  predicate AllSound(snaps: seq<Snapshot>) {
    forall k :: 0 <= k < |snaps| ==> Sound(snaps[k])
  }

  /** Between operations: not muted, the current state and every stored
      snapshot sound, and at most 80 snapshots on both stacks together. */
  predicate Settled(s: State) {
    !s.muted && Sound(SnapOf(s)) && AllSound(s.history.past) && AllSound(s.history.future) &&
    |s.history.past| + |s.history.future| <= MaxHistory
  }

  lemma InitialSettled()
    ensures Settled(Initial)
  {
  }

  lemma PushedSound(past: seq<Snapshot>, snap: Snapshot)
    requires AllSound(past) && Sound(snap) && |past| <= MaxHistory
    ensures AllSound(Pushed(past, snap)) && |Pushed(past, snap)| <= MaxHistory
  {
    var p := past + [snap];
    assert AllSound(p) by {
      forall k | 0 <= k < |p| ensures Sound(p[k]) {
        if k < |past| { assert p[k] == past[k]; }
      }
    }
  }

  /** A push keeps the state settled. */
  lemma PushSettled(s: State)
    requires Settled(s)
    ensures Settled(PushSpec(s))
  {
    PushedSound(s.history.past, SnapOf(s));
  }

  /** Undo and redo keep the state settled. */
  lemma UndoRedoSettled(s: State)
    requires Settled(s)
    ensures Settled(UndoSpec(s)) && Settled(RedoSpec(s))
  {
    var past, future := s.history.past, s.history.future;
    if past != [] {
      var f := future + [SnapOf(s)];
      assert AllSound(f) by {
        forall k | 0 <= k < |f| ensures Sound(f[k]) {
          if k < |future| { assert f[k] == future[k]; }
        }
      }
      assert Sound(past[|past| - 1]);
    }
    if future != [] {
      var p := past + [SnapOf(s)];
      assert AllSound(p) by {
        forall k | 0 <= k < |p| ensures Sound(p[k]) {
          if k < |past| { assert p[k] == past[k]; }
        }
      }
      assert Sound(future[|future| - 1]);
    }
  }

  /* Every edit keeps the state settled: the bound of 80 snapshots holds
     for good, and the wiring stays closed and simple with unique
     terminals, as long as a new wire joins existing nodes. A wire in
     progress is the exception: see `StaleStartBreaksClosed` below. */

  lemma DeleteSettled(s: State, id: Id)
    requires Settled(s)
    ensures Settled(DeleteSpec(s, id))
  {
    PushSettled(s);
    DeleteKeepsWiring(s, id);
  }

  lemma ClearWiresSettled(s: State)
    requires Settled(s)
    ensures Settled(ClearWiresSpec(s))
  {
    PushSettled(s);
    ClearWiresKeepsTerminals(s);
  }

  lemma StopSettled(s: State)
    requires Settled(s)
    ensures Settled(StopSpec(s))
  {
    StopResets(s);
  }

  lemma EnsureNodeSettled(s: State, itemId: Id, side: Side, freshId: Id)
    requires Settled(s)
    ensures Settled(EnsureNodeSpec(s, itemId, side, freshId).0)
  {
    EnsureNodeUnique(s, itemId, side, freshId, freshId);
  }

  /** A wire is drawn between existing nodes. */
  lemma AddWireSettled(s: State, a: Id, b: Id, freshId: Id)
    requires Settled(s)
    requires a in Ids(s.nodes) && b in Ids(s.nodes)
    ensures Settled(AddWireSpec(s, a, b, freshId))
  {
    PushSettled(s);
    AddWireKeepsSimple(s, a, b, freshId, freshId);
  }

  /** `wireClickNode(nodeId)` (lines 645-656): with no wire in progress
      the click only records its node as the start; otherwise it wires the
      start to the clicked node and chains on from there. */
  function WireClickSpec(s: State, nodeId: Id, freshId: Id): State {
    match s.wireStartNodeId
    case Some(start) =>
      if start == "" then s.(wireStartNodeId := Some(nodeId))
      else AddWireSpec(s, start, nodeId, freshId).(wireStartNodeId := Some(nodeId))
    case None => s.(wireStartNodeId := Some(nodeId))
  }

  /** As written, `deleteItem` keeps the wire in progress even when it
      starts on a terminal of the deleted item (Delete works in wire mode,
      lines 777-778); the next click then wires a node that is gone, and
      the wiring is no longer closed. */
  lemma StaleStartBreaksClosed(s: State, id: Id, b: Id, freshId: Id)
    requires s.wireStartNodeId.Some? && s.wireStartNodeId.value != ""
    requires s.wireStartNodeId.value in Attached(s.nodes, id)
    requires b in Ids(DeleteSpec(s, id).nodes)
    ensures var t := WireClickSpec(DeleteSpec(s, id), b, freshId);
            Wire(freshId, s.wireStartNodeId.value, b) in t.wires && !Closed(t.nodes, t.wires)
  {
    var d, start := DeleteSpec(s, id), s.wireStartNodeId.value;
    DeleteCascades(s, id);
    assert start !in Ids(d.nodes);
    assert !Duplicate(d.wires, start, b);
    var t := WireClickSpec(d, b, freshId);
    assert t.wires == d.wires + [Wire(freshId, start, b)] && t.nodes == d.nodes;
  }

  /** A wire in progress starts at an existing node. */
  predicate StartKnown(s: State) {
    s.wireStartNodeId.Some? ==> s.wireStartNodeId.value in Ids(s.nodes)
  }

  /** The evidently intended delete: as `deleteItem`, and a wire in
      progress that starts on one of the removed terminals is dropped. */
  function DeleteDroppingStart(s: State, id: Id): State {
    var t := DeleteSpec(s, id);
    if s.wireStartNodeId.Some? && s.wireStartNodeId.value in Attached(s.nodes, id)
    then t.(wireStartNodeId := None) else t
  }

  /** The corrected delete keeps the state settled and the wire start on
      an existing node. */
  lemma DeleteDroppingStartSettled(s: State, id: Id)
    requires Settled(s) && StartKnown(s)
    ensures Settled(DeleteDroppingStart(s, id)) && StartKnown(DeleteDroppingStart(s, id))
  {
    DeleteSettled(s, id);
    DeleteCascades(s, id);
    var t := DeleteDroppingStart(s, id);
    if t.wireStartNodeId.Some? {
      var start := t.wireStartNodeId.value;
      var i :| 0 <= i < |s.nodes| && s.nodes[i].id == start;
      assert s.nodes[i] in t.nodes;
    }
  }

  /** With the start on an existing node, clicking an existing node keeps
      the state settled and the start known: the wiring stays closed. */
  lemma WireClickSettled(s: State, nodeId: Id, freshId: Id)
    requires Settled(s) && StartKnown(s) && nodeId in Ids(s.nodes)
    ensures Settled(WireClickSpec(s, nodeId, freshId)) && StartKnown(WireClickSpec(s, nodeId, freshId))
  {
    if s.wireStartNodeId.Some? && s.wireStartNodeId.value != "" {
      AddWireSettled(s, s.wireStartNodeId.value, nodeId, freshId);
    }
  }

  /** The other edits keep the start known: adding a terminal or a wire
      keeps every node, and clearing, undo and redo drop the start. */
  lemma EditsKeepStartKnown(s: State, itemId: Id, side: Side, a: Id, b: Id, freshId: Id)
    requires StartKnown(s)
    ensures StartKnown(EnsureNodeSpec(s, itemId, side, freshId).0)
    ensures StartKnown(AddWireSpec(s, a, b, freshId))
    ensures StartKnown(ClearWiresSpec(s)) && StartKnown(StopSpec(s))
    ensures StartKnown(UndoSpec(s)) && StartKnown(RedoSpec(s))
  {
    var t := EnsureNodeSpec(s, itemId, side, freshId).0;
    if s.wireStartNodeId.Some? {
      var i :| 0 <= i < |s.nodes| && s.nodes[i].id == s.wireStartNodeId.value;
      assert t.nodes[i] == s.nodes[i];
    }
  }

  /** Undo then redo gives back the state, with the wire tool, the
      simulation and the solution cleared; so does redo then undo. */
  lemma UndoThenRedo(s: State)
    requires Settled(s)
    ensures s.history.past != [] ==>
              RedoSpec(UndoSpec(s)) == s.(wireStartNodeId := None, running := false, sol := None)
    ensures s.history.future != [] ==>
              UndoSpec(RedoSpec(s)) == s.(wireStartNodeId := None, running := false, sol := None)
  {
    var past, future := s.history.past, s.history.future;
    if past != [] {
      assert Sound(past[|past| - 1]);
      var u := UndoSpec(s);
      assert u.history.past + [SnapOf(u)] == past;
      assert u.history.future[..|u.history.future| - 1] == future;
    }
    if future != [] {
      assert Sound(future[|future| - 1]);
      var r := RedoSpec(s);
      assert r.history.future + [SnapOf(r)] == future;
      assert r.history.past[..|r.history.past| - 1] == past;
    }
  }

  /** Undo right after an edit that pushed history brings back the state
      before the edit, with the edited state as the only redo step and,
      below the bound, the history as it was. */
  lemma UndoAfterEdit(s: State, t: State)
    requires Settled(s)
    requires t.history == PushSpec(s).history
    ensures var u := UndoSpec(t);
            SnapOf(u) == SnapOf(s) && u.history.future == [SnapOf(t)] &&
            (|s.history.past| < MaxHistory ==> u.history.past == s.history.past)
  {
    PushedKeepsNewest(s.history.past, SnapOf(s));
    var p := Pushed(s.history.past, SnapOf(s));
    if |s.history.past| < MaxHistory {
      assert p[..|p| - 1] == s.history.past;
    }
  }

  /** Deleting then undoing restores what was deleted. */
  lemma DeleteThenUndo(s: State, id: Id)
    requires Settled(s)
    ensures SnapOf(UndoSpec(DeleteSpec(s, id))) == SnapOf(s)
  {
    UndoAfterEdit(s, DeleteSpec(s, id));
  }

  /* ---------------------------------------------------------------
     The global `state` object
     --------------------------------------------------------------- */

  class Workspace {
    var items: seq<Item>
    var nodes: seq<Node>
    var wires: seq<Wire>
    var selectedId: Option<Id>
    var cam: T.Cam
    var mode: string
    var wireStartNodeId: Option<Id>
    var running: bool
    var sol: Option<DcSolution>
    var past: seq<Snapshot>
    var future: seq<Snapshot>
    var muted: bool

    function St(): State
      reads this
    {
      State(items, nodes, wires, selectedId, cam, mode, wireStartNodeId, running, sol, History(past, future), muted)
    }

    /** Lines 60-90. */
    constructor ()
      ensures St() == Initial && Settled(St())
    {
      items, nodes, wires := [], [], [];
      selectedId, cam, mode := None, T.Cam(0.0, 0.0, 1.0), "select";
      wireStartNodeId, running, sol := None, false, None;
      past, future, muted := [], [], false;
    }

    /** `snapshotState()` (lines 113-124). */
    function Current(): Snapshot
      reads this
    {
      Snapshot(items, nodes, wires, selectedId, cam, mode)
    }

    /** `pushHistory()` (lines 149-155). */
    method PushHistory()
      modifies this
      ensures St() == PushSpec(old(St()))
    {
      if muted {
        return;
      }
      past := past + [Current()];
      if |past| > MaxHistory {
        past := past[1..];
      }
      future := [];
    }

    /** `stopSimulation(silent)` (lines 983-1001). */
    method StopSimulation()
      modifies this
      ensures St() == StopSpec(old(St()))
      ensures items == ResetReadings(old(items)) && !running && sol == None
      ensures nodes == old(nodes) && wires == old(wires) && selectedId == old(selectedId) && cam == old(cam)
      ensures mode == old(mode) && wireStartNodeId == old(wireStartNodeId) && muted == old(muted)
      ensures past == old(past) && future == old(future)
    {
      running := false;
      sol := None;
      items := ResetReadings(items);
    }

    /** `restoreSnapshot(snap)` (lines 126-147). */
    method RestoreSnapshot(snap: Snapshot)
      modifies this
      ensures St() == RestoreSpec(old(St()), snap)
    {
      muted := true;
      StopSimulation();
      Load(snap);
      muted := false;
    }

    /** The assignments of `restoreSnapshot` after the simulation stops. */
    method Load(snap: Snapshot)
      modifies this
      ensures items == snap.items && nodes == snap.nodes && wires == snap.wires
      ensures selectedId == snap.selectedId && cam == snap.cam
      ensures mode == if snap.mode == "" then "select" else snap.mode
      ensures wireStartNodeId == None && sol == None
      ensures running == old(running) && muted == old(muted) && past == old(past) && future == old(future)
    {
      items := snap.items;
      nodes := snap.nodes;
      wires := snap.wires;
      selectedId := snap.selectedId;
      cam := snap.cam;
      mode := if snap.mode == "" then "select" else snap.mode;
      wireStartNodeId := None;
      sol := None;
    }

    /** The assignments that end `solveAndUpdateUI`. */
    method Record(s: Option<DcSolution>, refreshed: seq<Item>)
      modifies this
      ensures St() == old(St()).(items := refreshed, sol := s)
      ensures items == refreshed && sol == s && nodes == old(nodes) && wires == old(wires)
    {
      sol, items := s, refreshed;
    }

    /** `undo()` (lines 157-164). */
    method Undo()
      modifies this
      ensures St() == UndoSpec(old(St()))
    {
      if |past| == 0 {
        return;
      }
      var current := Current();
      var prev := past[|past| - 1];
      past := past[..|past| - 1];
      future := future + [current];
      RestoreSnapshot(prev);
    }

    /** `redo()` (lines 166-173). */
    method Redo()
      modifies this
      ensures St() == RedoSpec(old(St()))
    {
      if |future| == 0 {
        return;
      }
      var current := Current();
      var next := future[|future| - 1];
      future := future[..|future| - 1];
      past := past + [current];
      RestoreSnapshot(next);
    }

    /** `deleteItem(id)` (lines 529-541). */
    method DeleteItem(id: Id)
      modifies this
      ensures St() == DeleteSpec(old(St()), id)
    {
      PushHistory();
      var attached := Attached(nodes, id);
      wires := KeepWires(wires, attached);
      nodes := KeepNodes(nodes, attached);
      items := KeepItems(items, id);
      if selectedId == Some(id) {
        selectedId := None;
      }
    }

    /** `ensureNodeForComp(itemId, side)` (lines 585-591); `freshId` is
        the id `uid()` would return. */
    method EnsureNodeForComp(itemId: Id, side: Side, freshId: Id) returns (id: Id)
      modifies this
      ensures (St(), id) == EnsureNodeSpec(old(St()), itemId, side, freshId)
    {
      var found := FindTerminal(nodes, itemId, side);
      if found.Some? {
        return nodes[found.value].id;
      }
      nodes := nodes + [Node(freshId, Comp(itemId, side))];
      id := freshId;
    }

    /** `addWire(a, b)` (lines 599-605). */
    method AddWire(a: Id, b: Id, freshId: Id)
      modifies this
      ensures St() == AddWireSpec(old(St()), a, b, freshId)
    {
      if a == b {
        return;
      }
      if Duplicate(wires, a, b) {
        return;
      }
      PushHistory();
      wires := wires + [Wire(freshId, a, b)];
    }

    /** `clearWires()` (lines 679-685). */
    method ClearWires()
      modifies this
      ensures St() == ClearWiresSpec(old(St()))
    {
      PushHistory();
      wires := [];
      nodes := Filter(nodes, (n: Node) => n.kind.Comp?);
      wireStartNodeId := None;
    }

    /** `solveAndUpdateUI()` (lines 1323-1378): the solution is recorded
        and every item refreshed; nothing else changes. */
    method SolveAndUpdateUI(toFixed: (real, nat) -> string) returns (ghost c: Option<Circuit>, ghost nets: seq<seq<Id>>)
      modifies this
      ensures SolvedAndUpdated(old(items), nodes, wires, toFixed, sol, items, c, nets)
      ensures St() == old(St()).(items := items, sol := sol)
    {
      var s, refreshed;
      s, refreshed, c, nets := SolveAndUpdate(items, nodes, wires, toFixed);
      Record(s, refreshed);
    }
  }
}
