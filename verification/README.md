# PhysicsLab circuit core in Dafny

PhysicsLab is a browser circuit laboratory. It has two pure engines and two
small pure producers, all working over one component/wire data model
(`types.ts`):

- **The DC solver** (`solveCircuit`, `utils/solver.ts`). It groups component
  pins into electrical nodes by a breadth-first search over wire adjacency.
  Ground is the node of the first battery's pin 1. It then assembles a
  Modified Nodal Analysis system: conductance stamps, plus one row and one
  column per battery. It solves that system by Gaussian elimination with
  partial pivoting and writes a `current` and a `voltageDrop` back onto every
  component. A singular system gives the error "电路断路或连接异常". A peak
  current above 15 A gives the warning "警告：电路短路！电流过大！".
- **The topology classifier** (`analyzeTopology`, `utils/topology.ts`). It
  merges wired pins with a union-find and counts the component terminals at
  each electrical node. It then names the circuit EMPTY, OPEN, SHORT, SERIES
  or PARALLEL, in a fixed order of tests.
- **The layout converter** (`convertLayoutToState`,
  `utils/layoutEngine.ts`). It turns a recognised diagram into components and
  wires. The steps are keyword type normalisation, grid coordinates and
  defaults, one wire per resolvable connection with a pin-choice rule, and a
  rotation pass for vertically stacked parts.
- **The editor's list transforms** (`App.tsx`): add, move, update, delete
  and connect. It also covers the reset of readings to 0 when the solver
  reports an error.

All numbers are Dafny `real`s. Component pins are `Pin(componentId, index)`
pairs rather than the source's `"${id}_${pin}"` strings.

Modules follow the source:

| module | file | models |
|---|---|---|
| `Circuit` | `circuit.dfy` | the data model of `types.ts`, default values, pin keys, the invariants the editor keeps |
| `Text` | `text.dfy` | ASCII `toUpperCase`, `includes`, decimal rendering of label numbers |
| `UnionFind` | `union_find.dfy` | `find` with path compression, `union`, wire chains (`Linked`) |
| `Topology` | `topology.dfy` | terminal degrees, junctions, the classification |
| `NodeGrouping` | `node_grouping.dfy` | the solver's BFS node grouping, ground choice and renumbering |
| `LinearSystem` | `linear_system.dfy` | `solveLinearSystem` |
| `Mna` | `mna.dfy` | the resistance table and the MNA stamps |
| `Solver` | `solver.dfy` | `solveCircuit`: assembly, solve, write-back, errors, circuit laws of the result |
| `Layout` | `layout.dfy` | `convertLayoutToState` |
| `Editing` | `editing.dfy` | the `App.tsx` handlers |

Behaviour kept exactly as the code has it:

- **Unknown pins.** A wire end that names an unknown pin, such as pin 2 or
  a deleted component, is pulled into the BFS group of the known pin it is
  wired to. Such a pin never joins two groups, because it has no adjacency
  list of its own. In the classifier's union-find, such a pin does join
  groups. `NodeGrouping.GroupsAgreeWithUnionFind` states that the two
  groupings agree when every wire ends on a terminal.
- **Batteries with both pins on one node.** For such a battery on a
  non-ground node, the `-1` of pin 1 overwrites the `1` of pin 0 in the
  battery's row and column (`Mna.StampBattery`).
- **Battery current.** A battery's current is its MNA unknown, taken from
  the solution vector as is. A passive component's current is its voltage
  drop divided by its resistance. A component with no conductance reports 0.
- **COMPLEX.** The kind `COMPLEX` exists, but the classifier never returns
  it.
- **The editor's error branch.** The editor zeroes every reading whenever
  the solver returns any error, the over-current warning included. In that
  case the solved readings are not kept (`App.tsx:34-54`).

Further facts about the code, kept in the model:

- The solver groups pins by a breadth-first search over the wires, while
  the classifier uses a union-find. The two differ only on unknown pins,
  as described above.
- A first battery whose two terminals are wired together puts both
  terminals on ground, which leaves its row of the system all zero. The
  system is then singular, so the solve reports the open-circuit error and
  not the over-current warning (`Solver.ShortedSourceIsOpenCircuit`).
- A battery's current is the current flowing from pin 0's node into the
  battery: the battery unknown enters the KCL row of pin 0's node with
  coefficient +1. So a battery driving a load reports a negative current.
  `Solver.KirchhoffCurrentLaw` is stated with this sign.
- The solver keeps the computed values when it raises the over-current
  warning, but the editor then zeroes them like any other error
  (`Editing.ZeroReadings`).

## Model

| member | source | states |
|---|---|---|
| Circuit.DefaultValue | App.tsx:68 | A new part's value is 12 exactly for a battery and 10 exactly for a resistor or rheostat. Every other kind gets 0. |
| Circuit.DefaultIsOpen | App.tsx:70 | A new part has an `isOpen` flag exactly when it is a switch, and a new switch starts open. |
| Circuit.PinKeysAreTerminals | utils/solver.ts:53-56 | The pin keys listed for a circuit are exactly pin 0 and pin 1 of its components. |
| Circuit.BatteryAt | utils/solver.ts:105 | In the filtered battery list, the battery at component index i sits at the position given by the count of batteries before i. |
| Circuit.CountKind | App.tsx:61 | The count of components of a kind is at most the list length. It is 0 exactly when no component has that kind. |
| Circuit.CountKindAppend | App.tsx:61 | Appending a component raises the count of its own kind by one and leaves every other kind's count unchanged. |
| Text.UpperIdempotent | utils/layoutEngine.ts:33 | Uppercasing twice gives the same string as uppercasing once. |
| Text.ContainsIffOccurs | utils/layoutEngine.ts:35 | The substring test holds exactly when the pattern occurs at some index of the string. |
| Text.ParseShowNat | App.tsx:69 | A label number written in decimal reads back as the same number. |
| Text.ShowNatInjective | utils/layoutEngine.ts:91 | Distinct numbers are written as distinct decimal strings. |
| UnionFind.Find | utils/topology.ts:63-69 | `find` returns the representative of the pin's tree. The representative is its own parent. Path compression leaves every pin's representative unchanged and adds an unseen pin as its own root. |
| UnionFind.UnionMerges | utils/topology.ts:70-74 | After `union(i, j)` the parent map is still an acyclic forest. The one change in representatives is that the class of i's root now has j's root. |
| UnionFind.LinkedTrans | utils/topology.ts:76-78 | Being joined by a chain of wires is transitive. |
| UnionFind.UnionAllJoinsEnds | utils/topology.ts:76-78 | After all unions, the two ends of every wire have the same representative. |
| UnionFind.UnionAllPartition | utils/topology.ts:62-78 | After all unions, two pins have the same representative exactly when a chain of wires joins them. |
| Topology.TerminalRootsPartition | utils/topology.ts:83-85 | Two component terminals get the same root exactly when a chain of wires joins them. |
| Topology.TallyCounts | utils/topology.ts:81-89 | The degree map has an entry for exactly the roots met. Each entry counts the terminals at that root. |
| Topology.DegreeSum | utils/topology.ts:83-89 | The node degrees add up to twice the number of components. |
| Topology.DegreeIsLinkedTerminals | utils/topology.ts:83-89 | A node's degree is the number of terminals whose root is that node. A component with both pins on one node adds 2. |
| Topology.Junctions | utils/topology.ts:91-94 | There are no junctions exactly when no node has more than two terminals. |
| Topology.AnalyzeTopology | utils/topology.ts:15-119 | COMPLEX is never returned. EMPTY is returned exactly for no components. `isValid` holds exactly for SERIES and PARALLEL. EMPTY and OPEN give 0 loops and branches; SHORT and SERIES give 1 loop and 0 branches; PARALLEL gives as many loops as branches, at least 1. |
| Topology.DecisionOrder | utils/topology.ts:97-102 | A non-empty circuit without a battery is OPEN, whatever the wires. A battery without a bulb, resistor or rheostat is SHORT. Only circuits with both can be SERIES or PARALLEL. |
| Topology.JunctionFreeVerdict | utils/topology.ts:104-115 | With a source and a load and no node above degree 2, the verdict is SERIES exactly when every node has degree at least 2. Otherwise it is OPEN. |
| Topology.JunctionVerdict | utils/topology.ts:116-119 | With a source and a load, any node above degree 2 makes the verdict PARALLEL, with loops = branches = number of such nodes, at least 1. |
| Topology.SeriesNodesHaveDegreeTwo | utils/topology.ts:104-112 | In a SERIES circuit every node has degree exactly 2, and there are as many nodes as components. |
| Topology.ParallelCountsJunctions | utils/topology.ts:116-119 | A PARALLEL verdict has some node above degree 2, and its loop count is the number of such nodes. |
| Topology.TopologyIgnoresValues | utils/topology.ts:76-98 | The verdict depends only on component ids, kinds and the wires. Values, switch states, positions and labels do not affect it. |
| Layout.NormalizeType | utils/layoutEngine.ts:32-41 | Type normalisation never produces WIRE. |
| Layout.NormalizeIgnoresCase | utils/layoutEngine.ts:33 | Normalisation gives the same kind for a name and for its uppercase form. |
| Layout.NormalizeTypeByPriority | utils/layoutEngine.ts:35-41 | The first rule, in source order, with a keyword in the uppercased name decides the kind. |
| Layout.NormalizeTypeFallback | utils/layoutEngine.ts:32 | A name that contains none of the keywords becomes RESISTOR. |
| Layout.BatteryKeywordsWin | utils/layoutEngine.ts:35 | A name containing BATTERY, SOURCE or POWER in any case is a battery, whatever else it contains. |
| Layout.NormalizeCanonicalName | utils/layoutEngine.ts:35-41 | Every kind but WIRE normalises from its own type name back to itself. |
| Layout.FindById | utils/layoutEngine.ts:66-67 | The lookup fails exactly when no component has the id. Otherwise it returns a component with that id. |
| Layout.PinChoice | utils/layoutEngine.ts:73-77 | The chosen pins are (0, 1) exactly when the source lies right of the target, and (1, 0) otherwise. Either way they sum to 1. |
| Layout.WireOf | utils/layoutEngine.ts:65-97 | A connection makes a wire exactly when both of its ids resolve. The wire has id `wire_<index>`, joins the named components, and has pin indices 0 and 1 in some order. |
| Layout.MakeWiresSound | utils/layoutEngine.ts:65-98 | Every wire made comes from some connection, at that connection's index. |
| Layout.MakeWiresComplete | utils/layoutEngine.ts:65-98 | Every connection whose ids resolve has its wire among the wires made. |
| Layout.MakeWiresDistinctIds | utils/layoutEngine.ts:91 | The wires made have pairwise distinct ids. |
| Layout.WireIdInjective | utils/layoutEngine.ts:91 | Distinct connection indices give distinct wire ids. |
| Layout.FinalRotationRule | utils/layoutEngine.ts:101-118 | A component is turned to 90 exactly when two wires touch it and both neighbours resolve within 50 in x. Otherwise its rotation is left as it was. |
| Layout.ConvertLayoutShape | utils/layoutEngine.ts:29-57 | There is one component per item, in order, with the item's id and normalised kind. Each is at x = 150 + 150·col and y = 100 + 120·row, with the default value and switch state, the kind's initial plus its 1-based position as label, rotation 0 or 90, and no readings. Every wire made ends on a component, wire ids are distinct, and pin indices sum to 1. |
| Layout.ConvertedWirePerConnection | utils/layoutEngine.ts:65-98 | The output has a wire `wire_k` exactly when connection k resolves. That wire joins the connection's components, and its source pin is 0 exactly when the source lies right of the target. |
| Layout.ConvertedRotation | utils/layoutEngine.ts:100-118 | In the output, a component has rotation 90 exactly when it has two wires, both to neighbours within 50 in x. Otherwise its rotation is 0. |
| Editing.AddComponent | App.tsx:59-73 | Adding keeps the old list as a prefix and appends one component. That component has the given id, kind and position, rotation 0, no readings, value 12/10/0 by kind, and an open flag only for a switch. |
| Editing.AddLabelNumbersKind | App.tsx:61-69 | The new label is the kind's prefix (U, R, L or none) followed by decimal digits. The digits read back as the number of components of that kind after the addition. |
| Editing.AddPreservesInvariants | App.tsx:59-73 | Adding a component with a fresh id keeps ids unique and leaves no wire dangling. |
| Editing.MoveComponent | App.tsx:75-77 | Moving changes only the position of the components with that id. Length and order are kept. |
| Editing.ApplyPatch | App.tsx:79-81 | A patch never changes id, kind or readings. Each of x, y, rotation, value, label and the open flag takes the patch's value when present and keeps the component's own when absent. The empty patch changes nothing. |
| Editing.UpdateComponent | App.tsx:79-81 | Updating applies the patch to the components with that id only. Length and order are kept. |
| Editing.MoveAndUpdateKeepIdsAndKinds | App.tsx:75-81 | Moves and updates keep every id and kind. They therefore keep ids unique and wires attached. |
| Editing.DeleteComponent | App.tsx:83-86 | After a delete, no component has the id. The remaining components are exactly the others. The remaining wires are exactly those touching neither end of it. |
| Editing.RemoveComponentKeepsOrder | App.tsx:84 | The surviving components keep their relative order. |
| Editing.RemoveWiresKeepsOrder | App.tsx:85 | The surviving wires keep their relative order. |
| Editing.DeletePreservesInvariants | App.tsx:83-86 | Deleting keeps ids unique and leaves no wire dangling if none dangled before. It keeps the no-self-loop and no-duplicate-wire properties. |
| Editing.WireExists | App.tsx:90-93 | A wire already exists exactly when some wire joins the same two (component, pin) ends, in either direction. |
| Editing.Connect | App.tsx:88-103 | Connecting a component to itself, or along an existing wire, adds nothing. Otherwise exactly one wire with the given ends is appended. |
| Editing.ConnectPreservesInvariants | App.tsx:88-103 | Connecting keeps wires free of self-loops and duplicates. With both ends present, it leaves no wire dangling. |
| Editing.ZeroReadings | App.tsx:49-54 | After the reset, every reading is 0 and nothing else changes. A list whose readings are all 0 already is returned as it was. |
| Editing.EditsKeepTopology | App.tsx:75-81 | Moving, updating and resetting readings never change the topology verdict. |
| NodeGrouping.Adj | utils/solver.ts:58-63 | A pin's neighbour list holds exactly the pins one wire away, and only component terminals have one. |
| NodeGrouping.Groups | utils/solver.ts:65-85 | There are at most twice as many groups as components. There are none exactly when there are no components. |
| NodeGrouping.GroupsPartition | utils/solver.ts:65-85 | The groups are non-empty, pairwise disjoint and wire-connected. They hold every component terminal, and nothing but terminals and wire ends. |
| NodeGrouping.SameGroupIffLinked | utils/solver.ts:68-85 | When wires end on terminals, two pins share a group exactly when a chain of wires joins them. |
| NodeGrouping.GroupsAgreeWithUnionFind | utils/solver.ts:49-85 | When wires end on terminals, the solver's groups are the classifier's union-find classes. |
| NodeGrouping.FindGroup | utils/solver.ts:92 | The search returns the first group holding the pin, or -1 when none does. |
| NodeGrouping.GroundIndex | utils/solver.ts:87-94 | The ground group is the first group holding the first battery's pin 1, or group 0 without one. |
| NodeGrouping.RenumberIsPermutation | utils/solver.ts:96-97 | Renumbering is a bijection on the group indices, with an explicit inverse. It sends exactly the ground group to node 0. |
| NodeGrouping.NodeMap | utils/solver.ts:96-99 | Every grouped pin gets a node number, that of its group after renumbering, and no other pin gets one. |
| NodeGrouping.SameNodeIffSameGroup | utils/solver.ts:96-99 | Two pins get the same node number exactly when they share a group. |
| NodeGrouping.GroundIsNodeZero | utils/solver.ts:87-99 | With a battery, the first battery's pin 1 is on node 0. |
| NodeGrouping.NodeInRange | utils/solver.ts:96-101 | Every component terminal gets a node number below the group count. |
| LinearSystem.PivotRow | utils/solver.ts:10-15 | The pivot row has the largest magnitude in the column among rows i to n-1. It is the first such row. |
| LinearSystem.SwapKeepsSolutions | utils/solver.ts:20-22 | Swapping two equations keeps the solution set. |
| LinearSystem.SubRowKeepsSolutions | utils/solver.ts:24-30 | Subtracting a multiple of the pivot row keeps the solution set. |
| LinearSystem.EliminateShape | utils/solver.ts:9-31 | Finished elimination leaves an upper-triangular system whose pivots are all at least 1e-9 in magnitude. |
| LinearSystem.EliminateSolutions | utils/solver.ts:9-31 | Finished elimination leaves a system with the same solutions as the original. |
| LinearSystem.BackSolves | utils/solver.ts:33-41 | Back substitution solves the triangular system. |
| LinearSystem.BackUnique | utils/solver.ts:33-41 | Back substitution gives the only solution of the triangular system. |
| LinearSystem.Solve | utils/solver.ts:4-43 | A size-0 system gives the empty vector. A returned vector solves G·x = B, and it is the only solution. |
| Mna.Resistance | utils/solver.ts:122-142 | Every finite effective resistance is strictly positive. Voltmeters, batteries, open switches and WIRE have none; a switch whose `isOpen` is unset counts as closed. A resistor's resistance is its value raised to at least 0.001, a rheostat's its value raised to at least 0.1; a bulb has exactly 10, an ammeter exactly 0.01 and a closed switch exactly 0.001. |
| Mna.ResistanceMonotone | utils/solver.ts:131-135 | Raising a component's value never lowers its resistance and never changes whether it has one. |
| Mna.AddConductance | utils/solver.ts:112-119 | A conductance stamp only touches node rows and node columns. |
| Mna.AddConductanceSymmetric | utils/solver.ts:112-119 | A conductance stamp keeps the matrix symmetric. |
| Mna.StampBattery | utils/solver.ts:145-158 | A battery stamp sets its row's right-hand side to the battery's value. It touches only its own row in node columns and its own column in node rows. |
| Mna.Assemble | utils/solver.ts:104-158 | The system has size (groups − 1) + battery count. The right-hand side is 0 in every node row and equals each battery's value in that battery's row. |
| Mna.AssembleSymmetric | utils/solver.ts:104-158 | The assembled matrix is symmetric. |
| Mna.NodeRowEquation | utils/solver.ts:112-156 | Row k of G·x is the current leaving node k+1, through every conductance and every battery. |
| Mna.BatteryRowEquation | utils/solver.ts:150-155 | A battery's row of G·x is the potential difference of its two nodes, or the overwrite quirk's value when both pins share a node. |
| Solver.FindBattery | utils/solver.ts:187 | The search returns the first battery with the id, or -1 when there is none. |
| Solver.Reading | utils/solver.ts:175-208 | A component keeps everything but its readings. Its drop is V(pin 0) − V(pin 1), with V(0) = 0. It reads 0/0 when a pin has no node. A part with no conductance reads current 0. A battery reads its MNA unknown. |
| Solver.ReadingObeysOhm | utils/solver.ts:190-198 | For a part with a finite resistance, current × resistance equals the voltage drop. |
| Solver.PeakCurrent | utils/solver.ts:173-201 | The peak bounds every current's magnitude, and it is attained unless it is the starting value. |
| Solver.ClearReadings | utils/solver.ts:163-167 | On a singular system, every component keeps everything but its readings, which become 0 and 0. |
| Solver.WriteBack | utils/solver.ts:160-215 | The error is the open-circuit one exactly when the system is singular. After a solve, the warning appears exactly when some current's magnitude exceeds 15. No other error is possible. |
| Solver.SolveCircuit | utils/solver.ts:45-216 | With no components, the input is returned as is, with no error. Otherwise the output keeps length, order and all non-reading fields. The singular and over-current cases follow WriteBack. |
| Solver.BatteryHoldsItsVoltage | utils/solver.ts:145-183 | After a successful solve, a battery whose pins lie on different nodes reports its own voltage as its drop. |
| Solver.KirchhoffCurrentLaw | utils/solver.ts:104-208 | For every non-ground node, the reported currents leaving it add up to 0. This holds when ids are unique and no battery has both pins on one node. |
| Solver.GroundedBatteryIsOpenCircuit | utils/solver.ts:145-167 | A battery of non-zero voltage with both terminals on the ground node makes the solve report the open-circuit error. |
| Solver.ShortedSourceIsOpenCircuit | utils/solver.ts:87-167 | When the first battery's two terminals share a node, a non-zero voltage makes the solve report the open-circuit error, not the over-current warning. |
| Solver.BatteryPosition | utils/solver.ts:187 | With unique ids, a battery is found at its position among the batteries. That position is the index of its MNA current unknown. |

## Left out

- Rendering, input handling, the chat assistant, the chart and the image
  scan. These are SVG, React state, network calls and floating-point
  plotting. None of them is part of the solver or the classifier.
- `Math.random` ids and positions, and `generateId`. They become parameters
  of `Editing.AddComponent` and `Editing.Connect`.
- IEEE-754 numbers. Every quantity is a Dafny `real`, so there is no
  rounding, NaN or Infinity. An infinite resistance is `None`, and 1e-9 and
  15 are plain constants. No numerical error bound is stated for pivoting.
- The string form of pin keys, `"${id}_${pin}"`. Pins are pairs. Two string
  keys that collide, such as ids ending in `_1`, are not modelled.
- The editor's success path (`App.tsx:34-48`). It copies solved readings
  only when one differs by more than 0.001, so it depends on rounding. The
  `setError` bookkeeping and the effect's dependency key are also left out.
- The classifier's unused code: the component adjacency map, `isShort`,
  `validComps`, `nodeDegree` and `pinGroups`. It does not affect the result.
- The layout converter's unused `pinUsage` map and its empty vertical
  stacking branch. They do not affect the result.
- In-place mutation. The source mutates the matrix and right-hand side in
  `solveLinearSystem`, and the rotation pass mutates the components it
  iterates over. Here every step returns new values. The rotation pass reads
  only x positions, which it never changes.
- Text.Upper: only ASCII letters are upper-cased. JavaScript's full Unicode
  mapping (ı→I, ſ→S, ß→SS) is not modelled, so a type name holding such
  letters can normalise to a different kind than in `layoutEngine.ts`.
- LinearSystem.Solve: its contract does not say when `None` comes back.
  That happens when some selected pivot is below 1e-9 in magnitude, which
  only the definition of `Eliminate` states. Over the reals, a small pivot
  need not mean the system is singular, so there is no stronger
  characterisation to prove.
- Editing.UpdateComponent: a patch covers position, rotation, value, label
  and switch state. Patches that change `id`, `type`, `current` or
  `voltageDrop` are not modelled, because they would break the unique-id
  invariant or be overwritten by the next solve.
- Solver.KirchhoffCurrentLaw: it requires no battery to have both pins on
  one node. For such a battery, the overwrite quirk leaves the battery's
  current unknown in that node's row once, with coefficient -1, instead of
  cancelling it. The battery itself reports no net current there, so the
  node's balance need not hold.
- NodeGrouping.SameGroupIffLinked: it requires every wire to end on a
  component terminal. The unknown-pin quirk means a pin outside the terminal
  set does not carry the chain relation in the breadth-first search.
