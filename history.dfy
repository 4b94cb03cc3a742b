/** The two-stack undo history of the React port
    (my-app/src/hooks/useHistory.js).

    `getSnapshot` and `restoreSnapshot` are callbacks supplied by the
    store: here the current snapshot is a parameter of each operation, and
    the snapshot to restore is returned to the caller. */
module History {
  import opened Common
  import opened Components
  import opened Topology

  /** What `getSnapshot` captures of the store. */
  datatype Snapshot = Snapshot(
    items: seq<Item>,
    nodes: seq<Node>,
    wires: seq<Wire>,
    selectedId: Option<Id>,
    cam: Cam,
    mode: string)

  /** A `{label, snap}` stack entry; `label` is a Dafny keyword, so the field is `tag`. */
  datatype Entry = Entry(tag: string, snap: Snapshot)

  /** The contents of `pastRef.current` and `futureRef.current`, tops last. */
  datatype Stacks = Stacks(past: seq<Entry>, future: seq<Entry>)

  const Empty := Stacks([], [])

  /** The snapshots of a stack, bottom first, without their labels. */
  function Snaps(s: seq<Entry>): (r: seq<Snapshot>)
    ensures |r| == |s|
    ensures forall k :: 0 <= k < |s| ==> r[k] == s[k].snap
  {
    seq(|s|, k requires 0 <= k < |s| => s[k].snap)
  }

  /** `push(label)`: one entry on past, future emptied. */
  function PushSpec(h: Stacks, tag: string, current: Snapshot): (r: Stacks)
    ensures |r.past| == |h.past| + 1 && r.past[..|h.past|] == h.past
    ensures r.past[|h.past|] == Entry(tag, current)
    ensures r.future == []
  {
    Stacks(h.past + [Entry(tag, current)], [])
  }

  /** `undo()`: nothing on an empty past; otherwise the top of past is
      popped and returned for restoring, and the current snapshot goes on
      future labelled "redo". */
  function UndoSpec(h: Stacks, current: Snapshot): (r: (Stacks, Option<Snapshot>))
    ensures h.past == [] <==> r.1.None?
    ensures h.past == [] ==> r.0 == h
    ensures h.past != [] ==>
              r.1 == Some(h.past[|h.past| - 1].snap) &&
              r.0.past == h.past[..|h.past| - 1] &&
              r.0.future == h.future + [Entry("redo", current)]
  {
    if h.past == [] then (h, None)
    else
      var last := h.past[|h.past| - 1];
      (Stacks(h.past[..|h.past| - 1], h.future + [Entry("redo", current)]), Some(last.snap))
  }

  /** `redo()`: the mirror image, labelling the current snapshot "undo";
      future is not cleared. */
  function RedoSpec(h: Stacks, current: Snapshot): (r: (Stacks, Option<Snapshot>))
    ensures h.future == [] <==> r.1.None?
    ensures h.future == [] ==> r.0 == h
    ensures h.future != [] ==>
              r.1 == Some(h.future[|h.future| - 1].snap) &&
              r.0.future == h.future[..|h.future| - 1] &&
              r.0.past == h.past + [Entry("undo", current)]
  {
    if h.future == [] then (h, None)
    else
      var next := h.future[|h.future| - 1];
      (Stacks(h.past + [Entry("undo", current)], h.future[..|h.future| - 1]), Some(next.snap))
  }

  /** `getLatestItems()`: the items of the top past snapshot, or `null`. */
  function LatestItems(h: Stacks): (r: Option<seq<Item>>)
    ensures r.None? <==> h.past == []
    ensures r.Some? ==> r.value == h.past[|h.past| - 1].snap.items
  {
    if h.past == [] then None else Some(h.past[|h.past| - 1].snap.items)
  }

  /** Undo and redo move entries between the stacks and never lose one. */
  lemma MovesPreserveSize(h: Stacks, current: Snapshot)
    ensures |UndoSpec(h, current).0.past| + |UndoSpec(h, current).0.future| == |h.past| + |h.future|
    ensures |RedoSpec(h, current).0.past| + |RedoSpec(h, current).0.future| == |h.past| + |h.future|
  {
  }

  /** Undo followed by redo, with the restored snapshot as the current
      one, gives back the snapshot undo started from and the same stacks;
      only the top past entry is relabelled "undo". */
  lemma UndoThenRedo(h: Stacks, current: Snapshot)
    requires h.past != []
    ensures var (h1, back) := UndoSpec(h, current);
            var (h2, again) := RedoSpec(h1, back.value);
            again == Some(current) &&
            h2.future == h.future &&
            h2.past == h.past[..|h.past| - 1] + [Entry("undo", h.past[|h.past| - 1].snap)] &&
            Snaps(h2.past) == Snaps(h.past)
  {
    var (h1, back) := UndoSpec(h, current);
    var (h2, again) := RedoSpec(h1, back.value);
    assert h1.future[..|h1.future| - 1] == h.future;
    assert h2.past == h.past[..|h.past| - 1] + [Entry("undo", h.past[|h.past| - 1].snap)];
  }

  /** Redo followed by undo is the mirror image. */
  lemma RedoThenUndo(h: Stacks, current: Snapshot)
    requires h.future != []
    ensures var (h1, fwd) := RedoSpec(h, current);
            var (h2, back) := UndoSpec(h1, fwd.value);
            back == Some(current) &&
            h2.past == h.past &&
            h2.future == h.future[..|h.future| - 1] + [Entry("redo", h.future[|h.future| - 1].snap)] &&
            Snaps(h2.future) == Snaps(h.future)
  {
    var (h1, fwd) := RedoSpec(h, current);
    var (h2, back) := UndoSpec(h1, fwd.value);
    assert h1.past[..|h1.past| - 1] == h.past;
    assert h2.future == h.future[..|h.future| - 1] + [Entry("redo", h.future[|h.future| - 1].snap)];
  }

  /** Undo right after a push restores the pushed snapshot and leaves the
      history as it was before the push, except for the one redo entry. */
  lemma PushThenUndo(h: Stacks, tag: string, pushed: Snapshot, current: Snapshot)
    ensures UndoSpec(PushSpec(h, tag, pushed), current) == (Stacks(h.past, [Entry("redo", current)]), Some(pushed))
  {
    var p := PushSpec(h, tag, pushed);
    assert p.past[..|p.past| - 1] == h.past;
    assert p.future + [Entry("redo", current)] == [Entry("redo", current)];
  }

  /** A push always leaves nothing to redo. */
  lemma PushThenRedo(h: Stacks, tag: string, pushed: Snapshot, current: Snapshot)
    ensures RedoSpec(PushSpec(h, tag, pushed), current) == (PushSpec(h, tag, pushed), None)
  {
  }

  /** `useHistoryCore`: the two stacks, updated in place. */
  class HistoryCore {
    var past: seq<Entry>
    var future: seq<Entry>

    function Contents(): Stacks
      reads this
    {
      Stacks(past, future)
    }

    constructor ()
      ensures Contents() == Empty
    {
      past := [];
      future := [];
    }

    /** Lines 7-11. */
    method Push(tag: string, current: Snapshot)
      modifies this
      ensures Contents() == PushSpec(old(Contents()), tag, current)
    {
      past := past + [Entry(tag, current)];
      future := [];
    }

    /** Lines 13-20: returns the snapshot to restore, if any. */
    method Undo(current: Snapshot) returns (restore: Option<Snapshot>)
      modifies this
      ensures (Contents(), restore) == UndoSpec(old(Contents()), current)
    {
      if |past| == 0 {
        return None;
      }
      var last := past[|past| - 1];
      past := past[..|past| - 1];
      future := future + [Entry("redo", current)];
      restore := Some(last.snap);
    }

    /** Lines 22-29. */
    method Redo(current: Snapshot) returns (restore: Option<Snapshot>)
      modifies this
      ensures (Contents(), restore) == RedoSpec(old(Contents()), current)
    {
      if |future| == 0 {
        return None;
      }
      var next := future[|future| - 1];
      future := future[..|future| - 1];
      past := past + [Entry("undo", current)];
      restore := Some(next.snap);
    }

    /** Lines 32-35. */
    method GetLatestItems() returns (items: Option<seq<Item>>)
      ensures items == LatestItems(Contents())
    {
      if |past| == 0 {
        return None;
      }
      items := Some(past[|past| - 1].snap.items);
    }
  }
}
