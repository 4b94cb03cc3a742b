# DC circuit sandbox: a Dafny model of its core

The repository is a browser sandbox for direct-current circuits. The user
places batteries, resistors, bulbs, switches and three meters (voltmeter,
ammeter, ohmmeter) on a pannable, zoomable canvas. Terminals are joined with
wires, and the circuit is solved by modified nodal analysis (MNA). The
readings are then written back onto the meters and bulbs. Every edit can be
undone and redone.

The repository ships the sandbox twice, and this project models both cores:

- **The React port** (`my-app/src/core/*.js`, `my-app/src/hooks/*`):
  - `Nets`: wire graph and connected components (`nets.js`).
  - `Elimination`, `Stamps`, `MnaSolver`: Gauss–Jordan elimination with partial pivoting and the MNA system (`mnaSolver.js`).
  - `CircuitBuilder`: from items, nodes and wires to a netlist, a solution and the meter and bulb readings (`circuitBuilder.js`).
  - `Formatting`: SI-prefix formatting (`formatting.js`).
  - `Coords`: camera transform (`coords.js`).
  - `Defaults`: item defaults and pin placement (`defaults.js`).
  - `Utils`: clamp (`utils.js`).
  - `History`: undo and redo stacks (`useHistory.js`).
  - `Store`: the reducer and the provider's actions (`useVoltLabStore.jsx`).
- **The standalone script** (`app.js`):
  - `ScriptTopology`, `ScriptNets`: nodes, wires and net numbering.
  - `ScriptMna`: the solver with its tiny-factor skip.
  - `ScriptCircuit`: battery internal resistance, ground choice and `solveNormalDC`.
  - `ScriptMeasure`: voltage across a part, current, the ohmmeter's test-source method, bulb brightness with hysteresis, and `solveAndUpdateUI`.
  - `ScriptFormat`: `formatSI` with its nano fallback.
  - `ScriptWorkspace`: the mutable `state` object with its history of at most 80 snapshots, delete, wires, stop, undo and redo.

The shared data model is in `Common` (options, points, `Abs`/`Max`/`Min`),
`Components` (kinds, properties, items) and `Topology` (the React port's nodes,
wires and camera).

Code with loops and in-place updates is modelled as methods over arrays or as
classes:
- `Elimination.Solve` works on `array`s.
- `History.HistoryCore`, `Store.Provider` and `ScriptWorkspace.Workspace` are classes whose methods update fields.

Each such method is proved equal to a specification function, and the
properties are proved as lemmas about those functions. Pure helpers
(`formatSI`, `voltageAcross`, the coordinate transforms) are functions.

Two things are not under the model's control and are passed in as parameters:
- `Number.prototype.toFixed` (a function from a number and a digit count to text);
- the rotation of a pin offset (`Math.cos`/`Math.sin`).

Identifiers made by `uid()` are fresh-id parameters.

## Model

| member | source | states |
|---|---|---|
| Common.Abs | app.js:1300 | the magnitude is non-negative and equals `x` or `-x` |
| Common.Max | app.js:1143 | the result is an upper bound of both arguments and equals one of them |
| Utils.Clamp | my-app/src/core/utils.js:1-3 | on a non-empty range the result lies in `[a, b]`; it is `x` inside the range, `a` below it and `b` above it |
| Utils.ClampIdempotent | my-app/src/core/utils.js:1-3 | clamping twice is clamping once |
| Utils.ClampInvertedRange | my-app/src/core/utils.js:1-3 | when `b < a` the outer `max` wins and the result is `a` |
| Components.ResetReading | my-app/src/hooks/useVoltLabStore.jsx:276-281 | a meter's display becomes the dash and a bulb's brightness 0; identity, kind and position are kept; other kinds are unchanged |
| Components.ResetReadings | my-app/src/core/circuitBuilder.js:104-110 | every item is reset as above, in order |
| Coords.ScreenToWorld | my-app/src/core/coords.js:1-6 | the world point maps back to the screen point under `x * z + cam.x` |
| Coords.WorldToScreen | my-app/src/core/coords.js:8-13 | for a non-zero zoom the screen point divides back to the world point |
| Coords.WorldScreenWorld | my-app/src/core/coords.js:1-13 | world to screen to world is the identity |
| Coords.ScreenWorldScreen | my-app/src/core/coords.js:1-13 | screen to world to screen is the identity |
| Coords.IdentityCamera | my-app/src/core/coords.js:1-13 | the initial camera `{0, 0, 1}` maps every point to itself |
| Coords.AxesIndependent | my-app/src/core/coords.js:1-13 | each coordinate depends only on the same coordinate of the input |
| Defaults.DefaultProps | my-app/src/core/defaults.js:11-20 | the default properties per kind: 9 V and 0.2 Ω for a battery, 100 Ω for a resistor, a closed switch, a 30 Ω dark bulb, a dash on every meter, size 100 and rotation 0 for all |
| Defaults.Place | my-app/src/core/defaults.js:27-32 | placing a pin changes only its world coordinates |
| Defaults.RecalcItemNodes | my-app/src/core/defaults.js:23-33 | only the item's own pins move; only their coordinates change |
| Defaults.ItemById | my-app/src/core/defaults.js:36-38 | a found item has that id; `None` means no item has it |
| Defaults.RecalcAllNodes | my-app/src/core/defaults.js:35-53 | only coordinates change; a pin with no owner or no local offset is unchanged |
| Defaults.RecalcAgree | my-app/src/core/defaults.js:23-53 | for a pin with local offsets, the all-items pass places it where the one-item pass does |
| Defaults.RecalcAllIdempotent | my-app/src/core/defaults.js:35-53 | recalculating twice is recalculating once |
| Defaults.PlacementIdempotent | my-app/src/core/defaults.js:23-33 | placing one item's pins twice is placing them once |
| Defaults.MakeItemWithNodes | my-app/src/core/defaults.js:56-69 | the item carries the given kind, position and properties; it has two pins `a` and `b` at local offsets -80 and +80 |
| Defaults.NewItemPins | my-app/src/core/defaults.js:56-69 | every new pin belongs to the new item and is named `a` or `b` |
| Formatting.FirstAtLeast | my-app/src/core/formatting.js:15-20 | the index of the first table row whose factor is at most the magnitude, or `None` when no row qualifies |
| Formatting.Decimals | my-app/src/core/formatting.js:22 | 0 decimals from 100, 1 from 10, 2 below, each as an if-and-only-if |
| Formatting.ReadingOf | my-app/src/core/formatting.js:2-22 | a missing value gives no reading |
| Formatting.FormatSI | my-app/src/core/formatting.js:1-24 | a missing value prints the dash; otherwise the scaled number with its decimals, the prefix and the unit, with no space |
| Formatting.SmallUsesUnit | my-app/src/core/formatting.js:14-20 | below a nanounit the unit row is used and the value is printed unscaled |
| Formatting.PickIsLargestBelow | my-app/src/core/formatting.js:14-20 | from a nanounit up, the chosen factor is at most the magnitude and is the largest such row |
| Formatting.PickBrackets | my-app/src/core/formatting.js:14-20 | for a magnitude from a nanounit up to below 1e12 units the chosen factor brackets it within a factor of 1000 |
| Formatting.AbsQuotient | my-app/src/core/formatting.js:21 | the magnitude of the quotient is the magnitude of the value over the factor |
| Formatting.QuotientInRange | my-app/src/core/formatting.js:21 | a bracketed magnitude over its factor lies in [1, 1000) |
| Formatting.ScaledInRange | my-app/src/core/formatting.js:14-21 | between a nanounit and a tera-unit the scaled number lies in `[1, 1000)` |
| Nets.LinkSpec | my-app/src/core/nets.js:5-8 | linking one wire adds exactly its two directed edges, and only when both ends are known nodes |
| Nets.AdjOfSpec | my-app/src/core/nets.js:2-11 | the keys are the node ids; `v` is a neighbour of `u` iff some kept wire joins them |
| Nets.WiredSnoc | my-app/src/core/nets.js:5-8 | adding a wire adds exactly the pairs it joins |
| Nets.AdjOfSymmetric | my-app/src/core/nets.js:7-8 | the adjacency is symmetric and every neighbour is a key |
| Nets.BuildAdj | my-app/src/core/nets.js:2-11 | the loop builds exactly the specified adjacency |
| Nets.PushUnseen | my-app/src/core/nets.js:28-33 | the unseen neighbours are pushed once each, and marked seen |
| Nets.Pop | my-app/src/core/nets.js:26-33 | one pop keeps the component, seen set and stack covered, reachable and tree-shaped, and makes progress |
| Nets.Visit | my-app/src/core/nets.js:19-36 | visiting one node keeps the outer loop's invariants |
| Nets.Explore | my-app/src/core/nets.js:21-34 | the stack search from a seed returns a duplicate-free component that starts at the seed; it is closed under neighbours and avoids earlier nets; each later id has an earlier neighbour |
| Nets.UnionSpec | my-app/src/core/nets.js:14-38 | an id is in the union iff it is in some net |
| Nets.FoundStep | my-app/src/core/nets.js:19-36 | adding a fresh component keeps the nets disjoint, connected and closed |
| Nets.SeededStep | my-app/src/core/nets.js:19-36 | each net is seeded by the first node not covered by the earlier nets |
| Nets.ComputeNets | my-app/src/core/nets.js:14-38 | the nets partition the node ids; each net is a connected component of the wire graph; nets come in seed order; there are at most as many nets as nodes |
| Nets.WireWithinNet | my-app/src/core/nets.js:14-38 | a kept wire has both ends in a net or neither |
| Nets.NetLinkedByWires | my-app/src/core/nets.js:14-38 | every id after the first in a net is wired to an earlier one |
| Nets.SingletonNet | my-app/src/core/nets.js:14-38 | a node no wire touches is a net of its own |
| Nets.FirstNetOfFirstNode | my-app/src/core/nets.js:19-24 | the first net starts at the first node, so it is that node's component |
| Nets.SameComponent | my-app/src/core/nets.js:25-34 | two nets that share an id hold the same ids |
| Nets.SameSeed | my-app/src/core/nets.js:19-24 | with the first nets alike, the next net of one result cannot start before that of another |
| Nets.SameNet | my-app/src/core/nets.js:19-34 | with the first nets alike, the next net of both results starts at the same node and holds the same ids |
| Nets.NetsAgree | my-app/src/core/nets.js:19-36 | any two results of `computeNets` agree net by net on their common prefix |
| Nets.NoExtraNet | my-app/src/core/nets.js:19-36 | nets that cover the same ids, with the first ones alike, come in equal number |
| Nets.NetsDetermined | my-app/src/core/nets.js:14-38 | the promise of `computeNets` fixes the number of nets and the ids of each net; only the order inside a net is open |
| Elimination.Augment | my-app/src/core/mnaSolver.js:5 | the augmented matrix holds `A` and then `b` as the last column |
| Elimination.PivotUpTo | my-app/src/core/mnaSolver.js:8-11 | the pivot row has the largest magnitude in the column and is the first such row |
| Elimination.Swap | my-app/src/core/mnaSolver.js:13 | exchanges two rows and keeps the others |
| Elimination.RunStaysFailed | my-app/src/core/mnaSolver.js:12 | once a column is singular the elimination stays failed |
| Elimination.FailureSticks | my-app/src/core/mnaSolver.js:6-25 | a failure at one column makes every longer elimination fail |
| Elimination.RunFailsSomewhere | my-app/src/core/mnaSolver.js:6-25 | a failed elimination fails at some column |
| Elimination.RunLast | my-app/src/core/mnaSolver.js:6-25 | a successful run ends in one step from a successful shorter run whose column is not singular |
| Elimination.RunFailsIff | my-app/src/core/mnaSolver.js:7-25 | elimination fails iff some column's pivot falls below 1e-12 at its step |
| Elimination.StepReduces | my-app/src/core/mnaSolver.js:13-24 | one step turns its column into a unit column and keeps the earlier unit columns |
| Elimination.RunReduces | my-app/src/core/mnaSolver.js:7-25 | after `k` successful steps the first `k` columns are unit columns |
| Elimination.SolveReducesToIdentity | my-app/src/core/mnaSolver.js:2-28 | a successful solve reduces the system to the identity and returns `n` values |
| Elimination.Solve | my-app/src/core/mnaSolver.js:2-28 | the in-place elimination returns exactly the specified solution, or `None` on a singular pivot |
| Elimination.Column | my-app/src/core/mnaSolver.js:7-25 | one column: a failure leaves the matrix unchanged; a success leaves it after that column's pivot, swap, normalize and eliminate |
| Elimination.NormalizeRow | my-app/src/core/mnaSolver.js:16-17 | divides the pivot row from the pivot column on and changes nothing else |
| Elimination.FindPivot | my-app/src/core/mnaSolver.js:8-11 | the pivot loop picks the specified pivot row |
| Elimination.SubtractPivotRow | my-app/src/core/mnaSolver.js:22-23 | the inner loop replaces one row by its elimination against the pivot row and changes nothing else |
| Elimination.Augmented | my-app/src/core/mnaSolver.js:4 | a fresh matrix holding each row of `A` extended by the matching entry of `b` |
| Elimination.ReduceAll | my-app/src/core/mnaSolver.js:6-25 | the column loop succeeds iff the specified elimination does, and then leaves its result |
| Elimination.Eliminate | my-app/src/core/mnaSolver.js:20-24 | subtracts the pivot row from every other row and leaves the pivot row |
| Stamps.Zeros | my-app/src/core/mnaSolver.js:38-39 | a square zero matrix |
| Stamps.StampConductorEntry | my-app/src/core/mnaSolver.js:48-59 | stamping one conductance adds `g` on the diagonal of each non-ground end and `-g` between two non-ground ends |
| Stamps.StampConductorsEntry | my-app/src/core/mnaSolver.js:48-59 | every entry is the old entry plus the summed conductance share |
| Stamps.ConductanceOutside | my-app/src/core/mnaSolver.js:48-59 | conductances touch only the node block |
| Stamps.StampSourceEntry | my-app/src/core/mnaSolver.js:70-86 | a voltage source adds ±1 incidence in its own row and column only |
| Stamps.StampSourcesEntry | my-app/src/core/mnaSolver.js:70-86 | every source adds its incidence in its own row and column |
| Stamps.AssembleEntry | my-app/src/core/mnaSolver.js:38-86 | every entry of the assembled matrix is the textbook MNA entry |
| Stamps.ConductanceSymmetric | my-app/src/core/mnaSolver.js:48-59 | the conductance block is symmetric |
| Stamps.AssembleSymmetric | my-app/src/core/mnaSolver.js:38-86 | the whole MNA matrix is symmetric |
| Stamps.InjectAllEntry | my-app/src/core/mnaSolver.js:62-67 | each right-hand-side entry gains the net current injected there |
| Stamps.SetSources | my-app/src/core/mnaSolver.js:85 | the source rows of the right-hand side hold the source voltages; the rest is kept |
| Stamps.StampConductorsInto | my-app/src/core/mnaSolver.js:48-59 | the in-place stamping loop gives the specified matrix |
| Stamps.StampSourcesInto | my-app/src/core/mnaSolver.js:70-86 | the in-place source loop gives the specified matrix and right-hand side |
| Stamps.InjectInto | my-app/src/core/mnaSolver.js:62-67 | the in-place injection loop gives the specified right-hand side |
| Stamps.StampConductorAt | my-app/src/core/mnaSolver.js:48-59 | one resistor is stamped in place as specified |
| Stamps.StampSourceAt | my-app/src/core/mnaSolver.js:70-84 | one voltage source is stamped into the matrix in place as specified |
| MnaSolver.SolveLinear | my-app/src/core/mnaSolver.js:2-28 | the React solver without a tiny-factor skip returns the specified solution |
| MnaSolver.IdxNodeBijection | my-app/src/core/mnaSolver.js:42-45 | ground maps to -1; the other nodes map one to one onto `0 .. nodeCount-2` |
| MnaSolver.Conductors | my-app/src/core/mnaSolver.js:48-52 | each resistor becomes conductance `1/R` between its mapped ends |
| MnaSolver.Injections | my-app/src/core/mnaSolver.js:62-67 | each current source keeps its value between its mapped ends |
| MnaSolver.Sources | my-app/src/core/mnaSolver.js:70-74 | each voltage source keeps its voltage between its mapped ends |
| MnaSolver.SourcesNeedNodes | my-app/src/core/mnaSolver.js:34-45 | a well-formed netlist with a source has a node |
| MnaSolver.MappedInRange | my-app/src/core/mnaSolver.js:42-45 | every mapped index lies inside the matrix |
| MnaSolver.Unpack | my-app/src/core/mnaSolver.js:92-96 | ground reads 0 and every other node reads its unknown |
| MnaSolver.MnaSpecShape | my-app/src/core/mnaSolver.js:34-99 | with no nodes the ground index is out of range (a thrown error); a solution has one voltage per node, ground at 0, and one current per source |
| MnaSolver.BuildSystem | my-app/src/core/mnaSolver.js:36-86 | the arrays built hold the assembled matrix and right-hand side |
| MnaSolver.UnpackInto | my-app/src/core/mnaSolver.js:92-96 | the loop gives the specified voltages |
| MnaSolver.SolveMna | my-app/src/core/mnaSolver.js:34-99 | `solveMNA` returns exactly the specified result |
| CircuitBuilder.Assign | my-app/src/core/circuitBuilder.js:10 | every id of one net maps to that net's index |
| CircuitBuilder.NetIndexSpec | my-app/src/core/circuitBuilder.js:6-13 | the map's keys are the ids in the nets; each id maps to the last net holding it |
| CircuitBuilder.NetIndexExact | my-app/src/core/circuitBuilder.js:6-13 | for disjoint nets, an id maps to `k` iff it is in net `k` |
| CircuitBuilder.NetIndexSameElems | my-app/src/core/circuitBuilder.js:6-13 | the map depends only on the ids each net holds |
| CircuitBuilder.BuildNodeToNet | my-app/src/core/circuitBuilder.js:6-13 | the nets are the components of the wire graph in the order of their first node, and the map indexes them |
| CircuitBuilder.IndexNets | my-app/src/core/circuitBuilder.js:9-11 | the nested loop gives the specified map |
| CircuitBuilder.AssignStep | my-app/src/core/circuitBuilder.js:10 | setting one more id extends the map for a prefix of the net |
| CircuitBuilder.NetIndexStep | my-app/src/core/circuitBuilder.js:9-11 | one more net extends the map by its ids |
| CircuitBuilder.PinsOf | my-app/src/core/circuitBuilder.js:17 | exactly the item's pins |
| CircuitBuilder.PinsInOrder | my-app/src/core/circuitBuilder.js:17-19 | the pins come in node order, so the positional fallback takes the first two of the item's nodes in the list |
| CircuitBuilder.FindNamed | my-app/src/core/circuitBuilder.js:18-19 | the first pin with that name, or `None` when there is none |
| CircuitBuilder.ItemPins | my-app/src/core/circuitBuilder.js:16-21 | each chosen pin belongs to the item |
| CircuitBuilder.ItemPinsBoth | my-app/src/core/circuitBuilder.js:16-21 | both pins are found iff the item has two pins, or its only pin is named `b` |
| CircuitBuilder.ItemPinsPreferNamed | my-app/src/core/circuitBuilder.js:18-19 | a pin named `a` (`b`) is preferred over the positional fallback |
| CircuitBuilder.StampPins | my-app/src/core/circuitBuilder.js:43-74 | at most one resistor is appended, and one source exactly for a battery; an open switch and a meter add nothing |
| CircuitBuilder.StampItem | my-app/src/core/circuitBuilder.js:37-38 | an item missing a pin adds nothing |
| CircuitBuilder.StampPinsSound | my-app/src/core/circuitBuilder.js:43-74 | stamps keep every index in range and number the battery nodes consecutively |
| CircuitBuilder.StampItemSound | my-app/src/core/circuitBuilder.js:36-77 | stamping an item keeps the netlist sound |
| CircuitBuilder.StampAll | my-app/src/core/circuitBuilder.js:36-77 | the netlist is sound and has at most one resistor and one source per item |
| CircuitBuilder.StampAllSnoc | my-app/src/core/circuitBuilder.js:36-77 | the loop over `items[..i+1]` is the loop over `items[..i]` and then item `i` |
| CircuitBuilder.LargestSpec | my-app/src/core/circuitBuilder.js:80-85 | the `Math.max` is an upper bound of every index, attained by the base or by some index |
| CircuitBuilder.MaxNodeIndex | my-app/src/core/circuitBuilder.js:80-85 | the expanded node count is the net count plus one internal node per battery |
| CircuitBuilder.NodeCount | my-app/src/core/circuitBuilder.js:80-85 | the node count handed to the solver is the net count plus one per battery |
| CircuitBuilder.SoundIsWellFormed | my-app/src/core/circuitBuilder.js:87-93 | a sound netlist is a valid input of `solveMNA` |
| CircuitBuilder.Report | my-app/src/core/circuitBuilder.js:95-100 | failure iff the solver gave no solution; a thrown error is reported as such; success carries the map, nets, ground 0 and the solution |
| CircuitBuilder.FinishIsReport | my-app/src/core/circuitBuilder.js:80-100 | the netlist handed to the solver is well formed and the result is the report of its solution |
| CircuitBuilder.SoundNeedsNets | my-app/src/core/circuitBuilder.js:80-93 | a sound netlist with a source has a net |
| CircuitBuilder.FinishShape | my-app/src/core/circuitBuilder.js:80-100 | the thrown error happens iff there are no nets; a solution has the expanded voltages, one current per source, and ground at 0 |
| CircuitBuilder.NetsIffNodes | my-app/src/core/circuitBuilder.js:25-26 | there are nets iff there are nodes |
| CircuitBuilder.OutcomeShape | my-app/src/core/circuitBuilder.js:23-101 | the result is a thrown error iff there are no nodes; a solution's shape is as above, with at most one source per item |
| CircuitBuilder.StampInto | my-app/src/core/circuitBuilder.js:43-74 | the imperative stamp gives the specified lists |
| CircuitBuilder.CollectStamps | my-app/src/core/circuitBuilder.js:36-77 | the loop gives the specified netlist |
| CircuitBuilder.SolveNetlist | my-app/src/core/circuitBuilder.js:80-100 | sizing, solving and reporting give the specified result |
| CircuitBuilder.SolveNormalDC | my-app/src/core/circuitBuilder.js:23-101 | the nets partition the nodes into components in the order of their first node, so net 0 (the ground) is the component of the first node; the result is the specified outcome; it is a thrown error iff there are no nodes |
| CircuitBuilder.OutcomeDetermined | my-app/src/core/circuitBuilder.js:23-101 | the outcome is fixed by the items, nodes and wires: any nets meeting the promise of `computeNets` give the same map, failure, voltages and currents |
| CircuitBuilder.Brightness | my-app/src/core/circuitBuilder.js:141-142 | the brightness lies in `[0, 1]`: it is `|dv| / 6` up to 6 V and 1 beyond |
| CircuitBuilder.ShowSolution | my-app/src/core/circuitBuilder.js:128-145 | a meter that shows nothing gets the dash and any other meter is kept; a bulb with both stored nets gets the brightness of the voltage between them: `|dv|/6` up to 6 V, full from there; nothing else changes |
| CircuitBuilder.ApplySolution | my-app/src/core/circuitBuilder.js:103-146 | a failed solve resets every reading; a solution updates every item as above |
| CircuitBuilder.ApplySolutionIdempotent | my-app/src/core/circuitBuilder.js:103-146 | applying the same solution twice is applying it once |
| CircuitBuilder.ApplySolutionKeeps | my-app/src/core/circuitBuilder.js:103-146 | identity, kind, position and every property other than display and brightness are kept |
| History.Snaps | my-app/src/hooks/useHistory.js:9 | the snapshots of the entries, in order |
| History.PushSpec | my-app/src/hooks/useHistory.js:7-11 | appends the labelled current snapshot and clears the future |
| History.UndoSpec | my-app/src/hooks/useHistory.js:13-20 | an empty past changes nothing and restores nothing; otherwise the last snapshot is popped and restored, and the current one goes to the future as `redo` |
| History.RedoSpec | my-app/src/hooks/useHistory.js:22-29 | the mirror of undo, pushing the current snapshot to the past as `undo` |
| History.LatestItems | my-app/src/hooks/useHistory.js:32-35 | the items of the newest snapshot, or `None` when the past is empty |
| History.MovesPreserveSize | my-app/src/hooks/useHistory.js:13-29 | undo and redo keep the total number of snapshots |
| History.UndoThenRedo | my-app/src/hooks/useHistory.js:13-29 | redo after undo restores the snapshot undo left, with the same future and the same snapshots in the past |
| History.RedoThenUndo | my-app/src/hooks/useHistory.js:13-29 | undo after redo restores the snapshot redo left, with the same past |
| History.PushThenUndo | my-app/src/hooks/useHistory.js:7-20 | undo right after a push restores the pushed snapshot and leaves one redo entry |
| History.PushThenRedo | my-app/src/hooks/useHistory.js:7-29 | after a push there is nothing to redo |
| History.HistoryCore.constructor | my-app/src/hooks/useHistory.js:3-5 | both stacks start empty |
| History.HistoryCore.Push | my-app/src/hooks/useHistory.js:7-11 | the stacks become the specified push |
| History.HistoryCore.Undo | my-app/src/hooks/useHistory.js:13-20 | the stacks and the snapshot to restore are the specified undo |
| History.HistoryCore.Redo | my-app/src/hooks/useHistory.js:22-29 | the stacks and the snapshot to restore are the specified redo |
| History.HistoryCore.GetLatestItems | my-app/src/hooks/useHistory.js:32-35 | returns the newest snapshot's items without changing the stacks |
| Store.Merge | my-app/src/hooks/useVoltLabStore.jsx:56 | a wire-state patch overrides exactly the fields it carries |
| Store.Reducer | my-app/src/hooks/useVoltLabStore.jsx:32-67 | every action changes only its own fields (`SET_MODE` also the wire state) |
| Store.InitialConsistent | my-app/src/hooks/useVoltLabStore.jsx:10-30 | the initial state is consistent: `running` and `isRunning` agree and the pins are placed |
| Store.ReducerKeepsConsistent | my-app/src/hooks/useVoltLabStore.jsx:32-67 | every action keeps the state consistent |
| Store.RunningAndUnknown | my-app/src/hooks/useVoltLabStore.jsx:58-65 | `SET_RUNNING` sets both flags; an unknown action returns the state unchanged |
| Store.SetModeWire | my-app/src/hooks/useVoltLabStore.jsx:34-39 | the wire state survives only when the new mode is `wire` |
| Store.MergeLaws | my-app/src/hooks/useVoltLabStore.jsx:55-56 | merging is idempotent, and the reset patch clears the wire state |
| Store.SameLayoutNewWires | my-app/src/hooks/useVoltLabStore.jsx:50-53 | setting the same items and placed nodes changes only the wires |
| Store.AddedWires | my-app/src/hooks/useVoltLabStore.jsx:237-256 | refused iff an end is empty, the ends coincide, or a wire already joins them in either direction; otherwise the wire is appended |
| Store.AddWireKeepsSimple | my-app/src/hooks/useVoltLabStore.jsx:237-256 | adding a wire keeps the wire list free of loops and duplicates |
| Store.AddWireTwice | my-app/src/hooks/useVoltLabStore.jsx:240-245 | the same wire, in either direction, is refused the second time |
| Store.ItemsWithout | my-app/src/hooks/useVoltLabStore.jsx:146 | the items with another id, and only those |
| Store.NodesWithout | my-app/src/hooks/useVoltLabStore.jsx:147 | the pins of other items, and only those |
| Store.WiresAmong | my-app/src/hooks/useVoltLabStore.jsx:150-151 | the wires with both ends alive, and only those |
| Store.Delete | my-app/src/hooks/useVoltLabStore.jsx:142-144 | a delete is refused iff no item has the id |
| Store.DeleteRemovesExactly | my-app/src/hooks/useVoltLabStore.jsx:142-159 | removes the item, its pins and exactly the wires that lose an end |
| Store.DeleteKeepsOrder | my-app/src/hooks/useVoltLabStore.jsx:146-151 | each new list is the old one read at the strictly increasing positions of every kept entry: order and repetitions are kept |
| Store.DeleteLeavesClosed | my-app/src/hooks/useVoltLabStore.jsx:142-159 | after a delete every wire end is a node |
| Store.PatchCam | my-app/src/hooks/useVoltLabStore.jsx:114-121 | the zoom lies in `[0.25, 3]` and takes the patch's zoom when that is in range; `x` and `y` take the patch's values or keep the old ones |
| Store.PatchCamLaws | my-app/src/hooks/useVoltLabStore.jsx:114-121 | patching twice is patching once, and the patched camera still round-trips points |
| Store.ItemByIdReset | my-app/src/hooks/useVoltLabStore.jsx:276-283 | looking up a reset item is resetting the looked-up item |
| Store.PlaceReset | my-app/src/hooks/useVoltLabStore.jsx:276-283 | resetting readings does not move pins |
| Store.ResetKeepsPlacement | my-app/src/hooks/useVoltLabStore.jsx:276-283 | `stop` leaves the pin layout as it was |
| Store.SnapshotOf | my-app/src/hooks/useVoltLabStore.jsx:76-83 | the snapshot holds the items, nodes, wires, selection, camera and mode |
| Store.RestoreActions | my-app/src/hooks/useVoltLabStore.jsx:84-97 | a restore is seven dispatches |
| Store.RestoreSpec | my-app/src/hooks/useVoltLabStore.jsx:84-97 | a restore stops the run, drops the solution, installs the snapshot with its pins re-placed, and resets the wire state; the status text is kept |
| Store.RestoreRoundTrip | my-app/src/hooks/useVoltLabStore.jsx:76-97 | restoring a state's own snapshot gives back that snapshot |
| Store.UndoAfterEdit | my-app/src/hooks/useVoltLabStore.jsx:76-97 | undo right after an edit restores the state from before the edit |
| Store.Provider.constructor | my-app/src/hooks/useVoltLabStore.jsx:69-98 | the provider starts from the initial state with empty history |
| Store.Provider.Dispatch | my-app/src/hooks/useVoltLabStore.jsx:32-67 | the state becomes the reducer's result |
| Store.Provider.SetStatus | my-app/src/hooks/useVoltLabStore.jsx:105-107 | only the status text changes |
| Store.Provider.SetMode | my-app/src/hooks/useVoltLabStore.jsx:109-112 | the mode changes, with the matching status text |
| Store.Provider.SetCam | my-app/src/hooks/useVoltLabStore.jsx:114-121 | only the camera changes, as `PatchCam` says |
| Store.Provider.AddWire | my-app/src/hooks/useVoltLabStore.jsx:237-256 | a refused wire changes nothing; otherwise the wire is added and the state before the edit is pushed as `wire` |
| Store.Provider.DeleteItem | my-app/src/hooks/useVoltLabStore.jsx:142-159 | an unknown id changes nothing; otherwise the cascade delete, cleared selection, solution, run and wire state, and a `delete` push of the prior state |
| Store.Provider.Remove | my-app/src/hooks/useVoltLabStore.jsx:153-157 | the new items, nodes (re-placed) and wires are stored; selection, solution, run and wire state are cleared; the store stays valid |
| Store.Provider.ClearWires | my-app/src/hooks/useVoltLabStore.jsx:161-166 | no wires, no wire in progress, a `clear wires` push of the prior state and the status text |
| Store.Provider.Stop | my-app/src/hooks/useVoltLabStore.jsx:272-285 | the run and solution are cleared, every reading is reset, the status is `Stopped` |
| Store.Provider.Restore | my-app/src/hooks/useVoltLabStore.jsx:84-97 | the state is the result of the seven restore dispatches |
| Store.Provider.Undo | my-app/src/hooks/useVoltLabStore.jsx:287-289 | the history undoes, and the popped snapshot, if any, is restored |
| Store.Provider.Redo | my-app/src/hooks/useVoltLabStore.jsx:290-292 | the history redoes, and the popped snapshot, if any, is restored |
| ScriptTopology.FindTerminal | app.js:1070 | the first comp node of that item and side, or `None` when there is none |
| ScriptNets.Vertices | app.js:1027-1038 | the node ids, then every wire's `a` end, then every `b` end |
| ScriptNets.AllKept | app.js:1033-1036 | no wire is dropped from the script's graph |
| ScriptNets.WireIsEdge | app.js:1033-1036 | both ends of every wire are neighbours of each other |
| ScriptNets.NumberedStep | app.js:1046-1065 | numbering a new disjoint net keeps the earlier numbers |
| ScriptNets.NumberNet | app.js:1051-1063 | every id of the component gets the current net number; the others keep theirs |
| ScriptNets.NumberNets | app.js:1046-1065 | every node gets a number; the numbers are the nets, found in node order |
| ScriptNets.ComputeNets | app.js:1040-1067 | the net count is at most the node count and zero iff there are no nodes; each number names a connected component; the nets are disjoint; wire ends share a number |
| ScriptNets.NodesAreKeys | app.js:1027-1038 | every node is a key of the graph |
| ScriptNets.NumbersInRange | app.js:1046-1066 | every number lies in `1 .. netCount` |
| ScriptNets.WiresShareNumber | app.js:1053-1064 | both ends of a wire get the same number |
| ScriptNets.NetOfTerminal | app.js:1069-1073 | the number of the first matching terminal; `None` when there is no terminal or it has no number |
| ScriptCircuit.OrElse | app.js:1215 | `x \|\| d`: a missing or zero value falls back to the default |
| ScriptCircuit.FirstBattery | app.js:1076 | the index of the first battery, or `None` when there is none |
| ScriptCircuit.GroundIsNet | app.js:1075-1082 | ground is a valid net; it is the first battery's `L` net when that terminal has a non-zero net |
| ScriptCircuit.StampItemAdds | app.js:1204-1233 | only appends; each new resistor runs from `nL` (or the new internal net) to `nR`; a battery adds at most one source, from `nR` or the internal net to `nL`; with sources disabled it adds none |
| ScriptCircuit.StampShapeStep | app.js:1204-1233 | stamping one more wired item keeps every resistor and source on a net in range, the internal battery nodes distinct, and nothing stamped when the circuit is disabled |
| ScriptCircuit.SourcesOwnedStep | app.js:1214-1232 | stamping one more item keeps every source tagged with the id of a wired battery among the stamped items |
| ScriptCircuit.StampItemsOk | app.js:1204-1233 | the stamping loop keeps every net in range |
| ScriptCircuit.CircuitOfSolvable | app.js:1186-1236 | the circuit is a valid solver input; with sources disabled it has no source and no extra net |
| ScriptCircuit.StampOne | app.js:1205-1232 | one iteration gives the specified stamp, or nothing for an unwired item |
| ScriptCircuit.BuildCircuit | app.js:1186-1236 | no circuit iff there are no nets; otherwise the numbered nets and the specified stamps |
| ScriptCircuit.DcSpecShape | app.js:1238-1252 | a solution has a source, a voltage for every net with ground at 0, and a current only for wired batteries |
| ScriptCircuit.SolveNormalDC | app.js:1238-1252 | the circuit is built as specified and the result is the specified solution |
| ScriptMna.NetListIndex | app.js:1114-1121 | the list holds the non-ground nets, and each net's position is its index |
| ScriptMna.BelowGround | app.js:1115 | below the ground, the list counts up from 1 |
| ScriptMna.IdxOfInRange | app.js:1126-1129 | ground maps to -1, every other net into the node block |
| ScriptMna.Conductors | app.js:1142-1145 | each resistor becomes conductance `1 / max(1e-12, R)` between its mapped ends |
| ScriptMna.Sources | app.js:1147-1162 | each source keeps its voltage between its mapped ends |
| ScriptMna.MappedInRange | app.js:1126-1162 | every mapped index lies inside the matrix |
| ScriptMna.VoltageMap | app.js:1167-1169 | a voltage for exactly the nets, with ground at 0 |
| ScriptMna.CurrentMap | app.js:1171-1172 | a current for exactly the source ids |
| ScriptMna.CurrentMapLast | app.js:1171-1172 | a source's current is its own unknown, unless a later source has the same id |
| ScriptMna.MnaSpecShape | app.js:1113-1175 | a solution gives a voltage for every net, ground at 0, and a current per source id |
| ScriptMna.SolvedLength | app.js:1087-1111 | a solution has one value per unknown |
| ScriptMna.SingleSourceCurrent | app.js:1171-1172 | with one source, the current map holds only that source |
| ScriptMna.SolveLinear | app.js:1087-1111 | the elimination skipping rows with a tiny factor returns the specified solution |
| ScriptMna.ListNets | app.js:1114-1115 | the loop lists the non-ground nets in order |
| ScriptMna.FillVoltages | app.js:1167-1169 | the loop gives the specified voltage map |
| ScriptMna.NetAt | app.js:1120-1128 | every non-ground net sits at its index in the list |
| ScriptMna.FillCurrents | app.js:1171-1172 | the loop gives the specified current map |
| ScriptMna.SolveMna | app.js:1113-1175 | `solveMNA` returns exactly the specified result |
| ScriptFormat.PickScale | app.js:1312-1313 | the chosen row is in the table |
| ScriptFormat.AgreesFromNano | app.js:1312-1313 | from a nanounit up the script picks the same row as the React port |
| ScriptFormat.ZeroUsesUnit | app.js:1312-1317 | zero prints as a plain unit, as in the React port |
| ScriptFormat.TinyUsesNano | app.js:1312-1313 | below a nanounit a non-zero value uses nano, scaled below 1, where the React port uses the unit row |
| ScriptFormat.FormatShape | app.js:1298-1318 | the text is the number, a space, a table prefix and the unit; between a nanounit and a tera-unit the number lies in `[1, 1000)` |
| ScriptMeasure.VoltageAcross | app.js:1254-1261 | a value iff both terminals have a net |
| ScriptMeasure.VoltageAcrossReads | app.js:1254-1261 | the value is `V(nR) - V(nL)`: 0 on one net, `V(nR)` when `nL` is ground |
| ScriptMeasure.DcSolutionCovers | app.js:1238-1252 | a solution has a voltage for every net, with ground at 0 |
| ScriptMeasure.CurrentThrough | app.js:1263-1267 | a current iff there is a voltage, and `I * max(1e-12, R)` is that voltage |
| ScriptMeasure.TerminalNetIn | app.js:1069-1073 | a terminal's net is a valid net |
| ScriptMeasure.Reciprocal | app.js:1289-1292 | a value iff the test current is known and at least 1e-15 in magnitude; it is positive, at most 1e15, and its product with `|I|` is 1 |
| ScriptMeasure.OhmSpecReads | app.js:1269-1293 | no circuit or a missing terminal gives nothing; one net gives 0; otherwise the reciprocal of the 1 V test current |
| ScriptMeasure.TestCurrentKnown | app.js:1279-1289 | a test solution carries the test source's current |
| ScriptMeasure.InverseBound | app.js:1290-1292 | a test current of at least 1e-15 gives a positive resistance of at most 1e15 Ω |
| ScriptMeasure.EquivalentResistance | app.js:1269-1293 | builds the circuit with sources disabled and returns the specified reading |
| ScriptMeasure.BulbR | app.js:1363 | the bulb resistance is at least 1e-9 |
| ScriptMeasure.Brightness | app.js:1366-1369 | power relative to 1.5 W, capped at 1 |
| ScriptMeasure.Power | app.js:1365 | the power `dv² / R` is not negative, and times `R` gives back `dv²` |
| ScriptMeasure.BulbTarget | app.js:1362-1371 | the target lies in `[0, 1]`: 0 without a solution or voltage; otherwise `P / 1.5` up to 1.5 W and 1 beyond |
| ScriptMeasure.UpdateBulbTracks | app.js:1372-1375 | after an update the brightness is within 0.02 of the target; only the brightness changes; a second update does nothing |
| ScriptMeasure.ShowText | app.js:1334-1336 | only the display changes, to the given text |
| ScriptMeasure.RefreshKeeps | app.js:1326-1377 | identity, kind, position and the other properties are kept; only meters change their display and only bulbs their brightness; without a solution a voltmeter or ammeter shows the dash |
| ScriptMeasure.RefreshOne | app.js:1326-1377 | one item is refreshed as specified; an ohmmeter is read through its own test circuit |
| ScriptMeasure.SolveAndUpdate | app.js:1323-1378 | solves as specified and refreshes every item, in order |
| Common.Filter | app.js:531-538 | exactly the kept elements |
| Common.FilterKeepsOrder | app.js:531-538 | the result is the subsequence of the input at the strictly increasing positions of every kept element |
| ScriptWorkspace.PushedKeepsNewest | app.js:149-155 | the new snapshot is last; the oldest is dropped only past 80 |
| ScriptWorkspace.UndoRedoMove | app.js:157-173 | an empty stack is a no-op; otherwise the popped snapshot is restored, the current one goes to the other stack, and the run stops; the total size is kept |
| ScriptWorkspace.AddWireKeepsSimple | app.js:599-605 | an accepted wire is appended and keeps the wires simple and closed; a loop or duplicate leaves the state unchanged; adding the same wire again does nothing |
| ScriptWorkspace.EnsureNodeUnique | app.js:585-591 | the returned node is the terminal; the terminal stays unique; only the nodes change, and only when the terminal was missing; a second call returns the same node |
| ScriptWorkspace.AddTerminalKeeps | app.js:585-591 | a new terminal for an item side that has none keeps the terminals unique and the wires closed, and is then found at the end of the node list |
| ScriptWorkspace.Attached | app.js:531 | exactly the ids of the item's comp nodes |
| ScriptWorkspace.DeleteCascades | app.js:529-541 | removes the item, its terminals and the wires touching them and nothing else; clears a matching selection and keeps any other |
| ScriptWorkspace.KeepClosed | app.js:531-533 | the wires kept by the filter have both ends among the kept nodes |
| ScriptWorkspace.DeleteKeepsWiring | app.js:529-541 | deleting keeps the wires closed and simple and the terminals unique |
| ScriptWorkspace.ClearWiresKeepsTerminals | app.js:679-685 | removes every wire and every free node and keeps the terminals |
| ScriptWorkspace.StopResets | app.js:983-1001 | the run and solution are cleared; meters show the dash and bulbs are dark; nothing else changes; stopping again does nothing |
| ScriptWorkspace.InitialSettled | app.js:60-90 | the initial state is settled: history of at most 80 and every snapshot sound |
| ScriptWorkspace.PushedSound | app.js:149-155 | pushing keeps every snapshot sound and at most 80 |
| ScriptWorkspace.PushSettled | app.js:149-155 | pushing keeps the state settled |
| ScriptWorkspace.UndoRedoSettled | app.js:126-173 | undo and redo keep the state settled |
| ScriptWorkspace.DeleteSettled | app.js:529-541 | deleting an item keeps the state settled |
| ScriptWorkspace.ClearWiresSettled | app.js:679-685 | clearing the wires keeps the state settled |
| ScriptWorkspace.StopSettled | app.js:983-1001 | stopping keeps the state settled |
| ScriptWorkspace.EnsureNodeSettled | app.js:585-591 | adding or finding a terminal keeps the state settled |
| ScriptWorkspace.AddWireSettled | app.js:599-605 | wiring two known nodes keeps the state settled |
| ScriptWorkspace.StaleStartBreaksClosed | app.js:529-541 | deleting the item whose terminal starts the wire in progress keeps that start, and the next click adds a wire to the removed node, so the wiring is no longer closed |
| ScriptWorkspace.DeleteDroppingStartSettled | app.js:529-541 | the corrected delete keeps the state settled and the wire start on an existing node |
| ScriptWorkspace.WireClickSettled | app.js:645-656 | with the start on an existing node, a click on an existing node keeps the state settled and the start known |
| ScriptWorkspace.EditsKeepStartKnown | app.js:585-685 | adding a terminal or a wire, clearing, stopping, undo and redo keep the wire start on an existing node |
| ScriptWorkspace.UndoThenRedo | app.js:126-173 | undo then redo, and redo then undo, return the state with the run stopped and no wire in progress |
| ScriptWorkspace.UndoAfterEdit | app.js:149-164 | undo right after an edit restores the snapshot from before it |
| ScriptWorkspace.DeleteThenUndo | app.js:529-541 | undo after a delete restores the deleted item, its terminals and wires |
| ScriptWorkspace.Workspace.constructor | app.js:60-90 | the state starts as the initial, settled state |
| ScriptWorkspace.Workspace.PushHistory | app.js:149-155 | the new state is the specified push |
| ScriptWorkspace.Workspace.StopSimulation | app.js:983-1001 | the new state is the specified stop |
| ScriptWorkspace.Workspace.RestoreSnapshot | app.js:126-147 | the new state is the specified restore |
| ScriptWorkspace.Workspace.Load | app.js:126-147 | the snapshot's items, nodes, wires, selection and camera are taken; an empty mode becomes `select`; wiring and the solution are cleared; the run, mute flag and history are kept |
| ScriptWorkspace.Workspace.Undo | app.js:157-164 | the new state is the specified undo |
| ScriptWorkspace.Workspace.Redo | app.js:166-173 | the new state is the specified redo |
| ScriptWorkspace.Workspace.DeleteItem | app.js:529-541 | the new state is the specified delete |
| ScriptWorkspace.Workspace.EnsureNodeForComp | app.js:585-591 | the new state and the returned id are the specified ones |
| ScriptWorkspace.Workspace.AddWire | app.js:599-605 | the new state is the specified wire addition |
| ScriptWorkspace.Workspace.ClearWires | app.js:679-685 | the new state is the specified clear |
| ScriptWorkspace.Workspace.SolveAndUpdateUI | app.js:1323-1378 | the solution is the specified one; every item is refreshed from the pre-update items; nothing else changes |
| ScriptWorkspace.Workspace.Record | app.js:1323-1378 | stores the solution and the refreshed items and changes nothing else |

## Left out

- Rendering, canvas and SVG drawing, the DOM, mouse and keyboard handlers (`useWorkspaceEvents.js`, the components and pages, `drawInfiniteGrid`/`drawWires`, `renderItemSVG`) are outside the computing core.
- `Math.cos`/`Math.sin` in `recalcItemNodes`/`recalcAllNodes` are a rotation parameter, because trigonometry on reals is not available.
- `toFixed` is a parameter of the formatting functions, because its digit strings belong to the JavaScript number printer.
- IEEE-754 rounding, `NaN`, `Infinity`, `isFinite`/`Number.isFinite` and `Number(...)` coercion: numbers are exact reals, and a property that is not a number is absent. The ohmmeter's `Number.isFinite(Itest)` becomes "the test current is present".
- `uid()` (random, clock) is a fresh-id parameter.
- The JSON deep copy of snapshots in `app.js`: snapshots are immutable values.
- The `||` fallbacks of `restoreSnapshot` in `app.js` for items, nodes, wires and camera are not modelled, because a snapshot always has those fields; only the mode fallback is.
- React `addItemAt`, `updateItem`, `handleDrop` and `onItemMouseDown` are not modelled, because they only combine placement (`MakeItemWithNodes`, `RecalcAllNodes`), dispatch and push, which are modelled.
- React `play` is not modelled as an action: it calls `applySolutionToItems(items, nodes, sol)` with three arguments where the function takes two, so the solution it applies is the nodes list. `ApplySolution` models the function itself.
- `app.js` wire-mode gestures (snapping, `createFreeNodeAt`, `finishWireMode`, `findSnap`), `duplicateItem`, `setMode`, `startSimulation`, the `requestAnimationFrame` loop and status-text timers are not modelled; the edits they end in (`EnsureNodeForComp`, `AddWire`, `PushHistory`) are, and so is the state change of `wireClickNode` (`WireClickSpec`).
- ScriptFormat.FormatSI: its own contract is empty; its properties are stated by `FormatShape`, `ZeroUsesUnit`, `TinyUsesNano` and `AgreesFromNano`.
- ScriptNets.ComputeNets: does not state that nets are numbered in seed order; the React `Nets.ComputeNets` states it for the same search.
- ScriptWorkspace.Workspace.SolveAndUpdateUI: the script mutates each item in place, so the ohmmeter's `buildCircuit` sees earlier items with updated displays. The model reads the items from before the update; the two agree because stamping reads only kind, id, resistance, voltage, internal resistance and the switch state, never a display or a brightness.
- ScriptWorkspace.Workspace.DeleteItem: follows `deleteItem` as written and keeps a stale wire start (see "## Findings"); the results about a wire in progress use the corrected `DeleteDroppingStart`.
- ScriptWorkspace.Workspace.RestoreSnapshot: `muted` is set and cleared within the call, so only its final value (false) is stated.
- Status texts of `app.js` are not modelled.
- In `useHistory.js` the past grows without a bound, unlike the script's 80-entry history, and the model follows each.

## Findings

| source | as written | input that shows it | evidently intended | confidence | as-written member | corrected member |
|---|---|---|---|---|---|---|
| app.js:529-541 | `deleteItem` removes the item's terminal nodes but leaves `wireStartNodeId` alone; Delete is handled in wire mode too (app.js:777-778), and `wireClickNode` (app.js:645-656) then wires the stale start | select an item, switch to wire mode, click one of its terminals, press Delete, click any remaining node: a wire to the removed node is added | a wire in progress that starts on a removed terminal is dropped | not executed | ScriptWorkspace.StaleStartBreaksClosed | ScriptWorkspace.DeleteDroppingStartSettled |
