/** `solveCircuit`: group the terminals into nodes, assemble the modified
    nodal system, solve it, and write every component's voltage drop and
    current back, with an error for a singular system and a warning for an
    excessive current. */
module Solver {
  import opened Circuit
  import opened NodeGrouping
  import opened LinearSystem
  import opened Mna

  /** Reported when elimination meets a (near-)zero pivot. */
  const OpenCircuitError: string := "电路断路或连接异常"

  /** Reported when some component carries more than `CurrentLimit` amperes. */
  const OverCurrentError: string := "警告：电路短路！电流过大！"

  const CurrentLimit: real := 15.0

  datatype Outcome = Outcome(components: seq<Component>, error: Option<string>)

  /** The index of the first battery with the given id, or -1. */
  function FindBattery(bs: seq<Component>, id: string): (r: int)
    ensures -1 <= r < |bs|
    ensures r >= 0 ==> bs[r].id == id
    ensures forall t :: 0 <= t < |bs| && (r == -1 || t < r) ==> bs[t].id != id
  {
    if |bs| == 0 then -1
    else if bs[0].id == id then 0
    else
      var r := FindBattery(bs[1..], id);
      assert forall t :: 1 <= t < |bs| ==> bs[t] == bs[1..][t - 1];
      if r == -1 then -1 else r + 1
  }

  lemma {:induction false} DivThenMul(v: real, r: real)
    requires r > 0.0
    ensures (v / r) * r == v
  {
  }

  /** The readings of one component under the solution `x`. A terminal
      without a node gives zero readings; otherwise the drop is the
      potential difference from pin 0 to pin 1, a battery reports its
      current unknown, and any other component obeys Ohm's law with its
      table resistance, an infinite one carrying no current. */
  function Reading(c: Component, nodes: map<Pin, nat>, x: seq<real>, nv: nat, bs: seq<Component>): (r: Component)
    ensures SameExceptReadings(r, c) && r.current.Some? && r.voltageDrop.Some?
    ensures Pin(c.id, 0) in nodes && Pin(c.id, 1) in nodes ==>
      r.voltageDrop.value == Potential(x, nodes[Pin(c.id, 0)]) - Potential(x, nodes[Pin(c.id, 1)])
    ensures !(Pin(c.id, 0) in nodes && Pin(c.id, 1) in nodes) ==> r.current.value == 0.0 && r.voltageDrop.value == 0.0
    ensures c.kind != BATTERY && Resistance(c).None? ==> r.current.value == 0.0
    ensures c.kind == BATTERY && Pin(c.id, 0) in nodes && Pin(c.id, 1) in nodes ==>
      r.current.value == (if FindBattery(bs, c.id) == -1 then 0.0 else At(x, nv + FindBattery(bs, c.id)))
  {
    var p0 := Pin(c.id, 0);
    var p1 := Pin(c.id, 1);
    if p0 !in nodes || p1 !in nodes then c.(current := Some(0.0), voltageDrop := Some(0.0))
    else
      var drop := Potential(x, nodes[p0]) - Potential(x, nodes[p1]);
      var current :=
        if c.kind == BATTERY then
          var idx := FindBattery(bs, c.id);
          if idx == -1 then 0.0 else At(x, nv + idx)
        else if Resistance(c).Some? then drop / Resistance(c).value
        else 0.0;
      c.(current := Some(current), voltageDrop := Some(drop))
  }

  /** Ohm's law: a component other than a battery, with a finite
      resistance, carries the current that makes its resistance times the
      current equal to its drop. */
  lemma {:induction false} ReadingObeysOhm(c: Component, nodes: map<Pin, nat>, x: seq<real>, nv: nat, bs: seq<Component>)
    requires c.kind != BATTERY && Resistance(c).Some?
    ensures var r := Reading(c, nodes, x, nv, bs);
      r.current.value * Resistance(c).value == r.voltageDrop.value
  {
    var r := Reading(c, nodes, x, nv, bs);
    if Pin(c.id, 0) in nodes && Pin(c.id, 1) in nodes {
      DivThenMul(r.voltageDrop.value, Resistance(c).value);
    }
  }

  function Readings(comps: seq<Component>, nodes: map<Pin, nat>, x: seq<real>, nv: nat, bs: seq<Component>): (rs: seq<Component>)
    ensures |rs| == |comps|
    ensures forall i {:trigger rs[i]} :: 0 <= i < |comps| ==> rs[i] == Reading(comps[i], nodes, x, nv, bs)
  {
    seq(|comps|, i requires 0 <= i < |comps| => Reading(comps[i], nodes, x, nv, bs))
  }

  function CurrentOf(c: Component): real
  {
    ReadingOrZero(c.current)
  }

  /** The running maximum of |current|, starting from `acc`. */
  function PeakCurrent(rs: seq<Component>, acc: real): (m: real)
    ensures m >= acc
    ensures forall i :: 0 <= i < |rs| ==> Abs(CurrentOf(rs[i])) <= m
    ensures m == acc || exists i :: 0 <= i < |rs| && Abs(CurrentOf(rs[i])) == m
  {
    if |rs| == 0 then acc
    else
      var acc' := if Abs(CurrentOf(rs[0])) > acc then Abs(CurrentOf(rs[0])) else acc;
      var m := PeakCurrent(rs[1..], acc');
      assert forall i :: 1 <= i < |rs| ==> rs[i] == rs[1..][i - 1];
      assert m == acc' || exists i :: 0 <= i < |rs| && Abs(CurrentOf(rs[i])) == m by {
        if m != acc' {
          var i :| 0 <= i < |rs[1..]| && Abs(CurrentOf(rs[1..][i])) == m;
          assert rs[i + 1] == rs[1..][i];
        }
      }
      m
  }

  /** Zero current and zero drop on every component. */
  function ClearReadings(comps: seq<Component>): (r: seq<Component>)
    ensures |r| == |comps|
    ensures forall i {:trigger r[i]} :: 0 <= i < |comps| ==> SameExceptReadings(r[i], comps[i])
    ensures forall i :: 0 <= i < |comps| ==> r[i].current == Some(0.0) && r[i].voltageDrop == Some(0.0)
  {
    seq(|comps|, i requires 0 <= i < |comps| => comps[i].(current := Some(0.0), voltageDrop := Some(0.0)))
  }

  /** The number of voltage unknowns: every node but ground. It is -1 for a
      circuit without terminals, which the solve returns unchanged. */
  function VoltageNodeCount(comps: seq<Component>, wires: seq<Wire>): int
  {
    |Groups(comps, wires)| - 1
  }

  /** Node numbers of a circuit stay within the node count. */
  lemma {:induction false} NodesWithin(comps: seq<Component>, wires: seq<Wire>)
    ensures VoltageNodeCount(comps, wires) >= 0 ==> NodesBelow(Nodes(comps, wires), VoltageNodeCount(comps, wires))
  {
    forall p | p in Nodes(comps, wires) ensures Nodes(comps, wires)[p] < |Groups(comps, wires)| {
      NodesBounded(comps, wires, p);
    }
  }

  /** The write-back once the system has been solved (`sol`): a singular
      system clears every reading and reports an open circuit; a solution
      is written into every component, with a warning when some current
      exceeds the limit. */
  function WriteBack(comps: seq<Component>, nodes: map<Pin, nat>, nv: nat, sol: Option<seq<real>>): (r: Outcome)
    ensures |r.components| == |comps|
    ensures forall i {:trigger r.components[i]} :: 0 <= i < |comps| ==> SameExceptReadings(r.components[i], comps[i])
    ensures r.error.Some? ==> r.error.value == OpenCircuitError || r.error.value == OverCurrentError
    ensures r.error == Some(OpenCircuitError) <==> sol.None?
    ensures sol.None? ==>
      forall i :: 0 <= i < |comps| ==> r.components[i].current == Some(0.0) && r.components[i].voltageDrop == Some(0.0)
    ensures sol.Some? ==>
      (r.error == Some(OverCurrentError) <==> exists i :: 0 <= i < |comps| && Abs(CurrentOf(r.components[i])) > CurrentLimit)
  {
    if sol.None? then Outcome(ClearReadings(comps), Some(OpenCircuitError))
    else
      var rs := Readings(comps, nodes, sol.value, nv, Batteries(comps));
      var peak := PeakCurrent(rs, 0.0);
      Outcome(rs, if peak > CurrentLimit then Some(OverCurrentError) else None)
  }

  /** The solve once the terminals are grouped into the nodes 0 to `nv`
      numbered by `nodes`, node 0 being ground: the system is assembled,
      solved and written back. */
  function SolveNodes(comps: seq<Component>, nodes: map<Pin, nat>, nv: nat): (r: Outcome)
    requires NodesBelow(nodes, nv)
    ensures |r.components| == |comps|
    ensures forall i {:trigger r.components[i]} :: 0 <= i < |comps| ==> SameExceptReadings(r.components[i], comps[i])
    ensures r.error.Some? ==> r.error.value == OpenCircuitError || r.error.value == OverCurrentError
    ensures r.error == Some(OpenCircuitError) ==>
      forall i :: 0 <= i < |comps| ==> r.components[i].current == Some(0.0) && r.components[i].voltageDrop == Some(0.0)
    ensures r.error != Some(OpenCircuitError) ==>
      (r.error == Some(OverCurrentError) <==> exists i :: 0 <= i < |comps| && Abs(CurrentOf(r.components[i])) > CurrentLimit)
  {
    WriteBack(comps, nodes, nv, Solve(Assemble(comps, nodes, nv).0, Assemble(comps, nodes, nv).1, nv + |Batteries(comps)|))
  }

  /** The whole solve: group the terminals, then solve on those nodes. An
      empty circuit comes back unchanged and without error. */
  function SolveCircuit(comps: seq<Component>, wires: seq<Wire>): (r: Outcome)
    ensures |comps| == 0 ==> r == Outcome(comps, None)
    ensures |r.components| == |comps|
    ensures forall i {:trigger r.components[i]} :: 0 <= i < |comps| ==> SameExceptReadings(r.components[i], comps[i])
    ensures r.error.Some? ==> r.error.value == OpenCircuitError || r.error.value == OverCurrentError
    ensures r.error == Some(OpenCircuitError) ==>
      forall i :: 0 <= i < |comps| ==> r.components[i].current == Some(0.0) && r.components[i].voltageDrop == Some(0.0)
    ensures r.error != Some(OpenCircuitError) ==>
      (r.error == Some(OverCurrentError) <==> exists i :: 0 <= i < |comps| && Abs(CurrentOf(r.components[i])) > CurrentLimit)
  {
    NodesWithin(comps, wires);
    if VoltageNodeCount(comps, wires) < 0 then Outcome(comps, None)
    else SolveNodes(comps, Nodes(comps, wires), VoltageNodeCount(comps, wires))
  }

  // ---------------------------------------------------------------------
  // What a successful solve guarantees

  /** With at least one node, the whole solve is the solve on the grouping's
      nodes. */
  lemma {:induction false} SolveCircuitOnNodes(comps: seq<Component>, wires: seq<Wire>)
    requires |Groups(comps, wires)| > 0
    ensures NodesBelow(Nodes(comps, wires), VoltageNodeCount(comps, wires))
    ensures SolveCircuit(comps, wires) == SolveNodes(comps, Nodes(comps, wires), VoltageNodeCount(comps, wires))
  {
    NodesWithin(comps, wires);
  }

  /** Without an open-circuit error the solver returned a vector, and the
      components carry its readings. */
  lemma {:induction false} WrittenReadings(comps: seq<Component>, nodes: map<Pin, nat>, nv: nat, sol: Option<seq<real>>)
    requires WriteBack(comps, nodes, nv, sol).error != Some(OpenCircuitError)
    ensures sol.Some?
    ensures WriteBack(comps, nodes, nv, sol).components == Readings(comps, nodes, sol.value, nv, Batteries(comps))
  {
  }

  /** `sol`, when present, solves the system assembled on `nodes`. */
  ghost predicate SolvedAssembly(comps: seq<Component>, nodes: map<Pin, nat>, nv: nat, sol: Option<seq<real>>)
    requires NodesBelow(nodes, nv)
  {
    sol.Some? ==>
      |sol.value| == nv + |Batteries(comps)| &&
      Solves(Assemble(comps, nodes, nv).0, nv + |Batteries(comps)|, sol.value, Assemble(comps, nodes, nv).1)
  }

  /** A vector the solver returns for the assembled system solves it. */
  lemma {:induction false} AssembledSolution(comps: seq<Component>, nodes: map<Pin, nat>, nv: nat)
    requires NodesBelow(nodes, nv)
    ensures SolvedAssembly(comps, nodes, nv, Solve(Assemble(comps, nodes, nv).0, Assemble(comps, nodes, nv).1, nv + |Batteries(comps)|))
  {
  }

  /** Every terminal of every component has a node, and no battery has
      both terminals on one node. */
  predicate Placed(comps: seq<Component>, nodes: map<Pin, nat>)
  {
    (forall i :: 0 <= i < |comps| ==> Pin(comps[i].id, 0) in nodes && Pin(comps[i].id, 1) in nodes) &&
    forall i :: 0 <= i < |comps| && comps[i].kind == BATTERY ==> nodes[Pin(comps[i].id, 0)] != nodes[Pin(comps[i].id, 1)]
  }

  /** Every terminal of a component has a node. */
  lemma {:induction false} TerminalsHaveNodes(comps: seq<Component>, wires: seq<Wire>, i: nat)
    requires i < |comps|
    ensures Pin(comps[i].id, 0) in Nodes(comps, wires) && Pin(comps[i].id, 1) in Nodes(comps, wires)
    ensures |Groups(comps, wires)| > 0
  {
    assert IsTerminal(comps, Pin(comps[i].id, 0)) && IsTerminal(comps, Pin(comps[i].id, 1));
    NodeInRange(comps, wires, Pin(comps[i].id, 0));
    NodeInRange(comps, wires, Pin(comps[i].id, 1));
    NodesBounded(comps, wires, Pin(comps[i].id, 0));
  }

  /** In any solution of the assembled system, the potential difference
      across a battery whose terminals lie on different nodes is its
      voltage. */
  lemma {:induction false} BatteryVoltageInSolution(comps: seq<Component>, nodes: map<Pin, nat>, nv: nat, x: seq<real>, i: nat)
    requires NodesBelow(nodes, nv) && |x| == nv + |Batteries(comps)|
    requires Solves(Assemble(comps, nodes, nv).0, nv + |Batteries(comps)|, x, Assemble(comps, nodes, nv).1)
    requires i < |comps| && comps[i].kind == BATTERY
    requires Pin(comps[i].id, 0) in nodes && Pin(comps[i].id, 1) in nodes
    requires nodes[Pin(comps[i].id, 0)] != nodes[Pin(comps[i].id, 1)]
    ensures Potential(x, nodes[Pin(comps[i].id, 0)]) - Potential(x, nodes[Pin(comps[i].id, 1)]) == comps[i].value
  {
    var c := comps[i];
    BatteryAt(comps, i);
    var t := |Batteries(comps[..i])|;
    var n0 := nodes[Pin(c.id, 0)];
    var n1 := nodes[Pin(c.id, 1)];
    BatteryRowSolved(comps, nodes, nv, x, t);
    assert NodeOf(nodes, Pin(c.id, 0)) == Some(n0) && NodeOf(nodes, Pin(c.id, 1)) == Some(n1);
    BattRowValueApart(n0, n1, x);
  }

  /** Written back from a solution of the assembled system, a battery whose
      terminals lie on different nodes shows its own voltage as its drop. */
  lemma {:induction false} BatteryDropWritten(comps: seq<Component>, nodes: map<Pin, nat>, nv: nat, sol: Option<seq<real>>, i: nat)
    requires NodesBelow(nodes, nv)
    requires SolvedAssembly(comps, nodes, nv, sol)
    requires WriteBack(comps, nodes, nv, sol).error != Some(OpenCircuitError)
    requires i < |comps| && comps[i].kind == BATTERY
    requires Pin(comps[i].id, 0) in nodes && Pin(comps[i].id, 1) in nodes
    requires nodes[Pin(comps[i].id, 0)] != nodes[Pin(comps[i].id, 1)]
    ensures WriteBack(comps, nodes, nv, sol).components[i].voltageDrop == Some(comps[i].value)
  {
    WrittenReadings(comps, nodes, nv, sol);
    BatteryDropInSolution(comps, nodes, nv, sol.value, i);
  }

  /** The battery's reading in the readings of a solution. */
  lemma {:induction false} BatteryDropInSolution(comps: seq<Component>, nodes: map<Pin, nat>, nv: nat, x: seq<real>, i: nat)
    requires NodesBelow(nodes, nv) && |x| == nv + |Batteries(comps)|
    requires Solves(Assemble(comps, nodes, nv).0, nv + |Batteries(comps)|, x, Assemble(comps, nodes, nv).1)
    requires i < |comps| && comps[i].kind == BATTERY
    requires Pin(comps[i].id, 0) in nodes && Pin(comps[i].id, 1) in nodes
    requires nodes[Pin(comps[i].id, 0)] != nodes[Pin(comps[i].id, 1)]
    ensures Readings(comps, nodes, x, nv, Batteries(comps))[i].voltageDrop == Some(comps[i].value)
  {
    BatteryVoltageInSolution(comps, nodes, nv, x, i);
    assert Readings(comps, nodes, x, nv, Batteries(comps))[i] == Reading(comps[i], nodes, x, nv, Batteries(comps));
  }

  /** A battery whose terminals lie on different nodes shows its own
      voltage as its drop. */
  lemma {:induction false} BatteryHoldsItsVoltage(comps: seq<Component>, wires: seq<Wire>, i: nat)
    requires SolveCircuit(comps, wires).error != Some(OpenCircuitError)
    requires i < |comps| && comps[i].kind == BATTERY
    requires NodeOf(Nodes(comps, wires), Pin(comps[i].id, 0)) != NodeOf(Nodes(comps, wires), Pin(comps[i].id, 1))
    ensures SolveCircuit(comps, wires).components[i].voltageDrop == Some(comps[i].value)
  {
    TerminalsHaveNodes(comps, wires, i);
    SolveCircuitOnNodes(comps, wires);
    BatteryDropOnNodes(comps, Nodes(comps, wires), VoltageNodeCount(comps, wires), i);
  }

  /** The same on any numbering of the nodes. */
  lemma {:induction false} BatteryDropOnNodes(comps: seq<Component>, nodes: map<Pin, nat>, nv: nat, i: nat)
    requires NodesBelow(nodes, nv)
    requires SolveNodes(comps, nodes, nv).error != Some(OpenCircuitError)
    requires i < |comps| && comps[i].kind == BATTERY
    requires Pin(comps[i].id, 0) in nodes && Pin(comps[i].id, 1) in nodes
    requires nodes[Pin(comps[i].id, 0)] != nodes[Pin(comps[i].id, 1)]
    ensures SolveNodes(comps, nodes, nv).components[i].voltageDrop == Some(comps[i].value)
  {
    AssembledSolution(comps, nodes, nv);
    BatteryDropWritten(comps, nodes, nv, Solve(Assemble(comps, nodes, nv).0, Assemble(comps, nodes, nv).1, nv + |Batteries(comps)|), i);
  }

  /** A battery with both terminals on ground leaves its row of the system
      all zero, so no vector solves the system unless its voltage is 0. */
  lemma {:induction false} GroundedBatteryUnsolvable(comps: seq<Component>, nodes: map<Pin, nat>, nv: nat, x: seq<real>, t: nat)
    requires NodesBelow(nodes, nv) && |x| == nv + |Batteries(comps)|
    requires Solves(Assemble(comps, nodes, nv).0, nv + |Batteries(comps)|, x, Assemble(comps, nodes, nv).1)
    requires t < |Batteries(comps)|
    requires NodeOf(nodes, Pin(Batteries(comps)[t].id, 0)) == Some(0)
    requires NodeOf(nodes, Pin(Batteries(comps)[t].id, 1)) == Some(0)
    ensures Batteries(comps)[t].value == 0.0
  {
    BatteryRowSolved(comps, nodes, nv, x, t);
  }

  /** A battery of non-zero voltage with both terminals on the ground node
      makes the system singular: the solve reports an open circuit and not
      the over-current warning. */
  lemma {:induction false} GroundedBatteryIsOpenCircuit(comps: seq<Component>, wires: seq<Wire>, t: nat)
    requires t < |Batteries(comps)| && Batteries(comps)[t].value != 0.0
    requires NodeOf(Nodes(comps, wires), Pin(Batteries(comps)[t].id, 0)) == Some(0)
    requires NodeOf(Nodes(comps, wires), Pin(Batteries(comps)[t].id, 1)) == Some(0)
    ensures SolveCircuit(comps, wires).error == Some(OpenCircuitError)
  {
    NodesBounded(comps, wires, Pin(Batteries(comps)[t].id, 0));
    SolveCircuitOnNodes(comps, wires);
    GroundedBatteryOnNodes(comps, Nodes(comps, wires), VoltageNodeCount(comps, wires), t);
  }

  /** The same on any numbering of the nodes. */
  lemma {:induction false} GroundedBatteryOnNodes(comps: seq<Component>, nodes: map<Pin, nat>, nv: nat, t: nat)
    requires NodesBelow(nodes, nv)
    requires t < |Batteries(comps)| && Batteries(comps)[t].value != 0.0
    requires NodeOf(nodes, Pin(Batteries(comps)[t].id, 0)) == Some(0)
    requires NodeOf(nodes, Pin(Batteries(comps)[t].id, 1)) == Some(0)
    ensures SolveNodes(comps, nodes, nv).error == Some(OpenCircuitError)
  {
    AssembledSolution(comps, nodes, nv);
    var sol := Solve(Assemble(comps, nodes, nv).0, Assemble(comps, nodes, nv).1, nv + |Batteries(comps)|);
    if sol.Some? {
      GroundedBatteryUnsolvable(comps, nodes, nv, sol.value, t);
    }
  }

  /** The first battery's own terminals wired onto one node: since its
      pin 1 is ground, a non-zero voltage makes the solve report an open
      circuit. */
  lemma {:induction false} ShortedSourceIsOpenCircuit(comps: seq<Component>, wires: seq<Wire>)
    requires |Batteries(comps)| > 0 && Batteries(comps)[0].value != 0.0
    requires NodeOf(Nodes(comps, wires), Pin(Batteries(comps)[0].id, 0))
      == NodeOf(Nodes(comps, wires), Pin(Batteries(comps)[0].id, 1))
    ensures SolveCircuit(comps, wires).error == Some(OpenCircuitError)
  {
    GroundIsNodeZero(comps, wires);
    GroundedBatteryIsOpenCircuit(comps, wires, 0);
  }

  /** The current a component's reading sends out of node `k`: its current
      leaves through pin 0's node and returns through pin 1's. */
  function Leaving(c: Component, nodes: map<Pin, nat>, k: nat): real
  {
    var p0 := Pin(c.id, 0);
    var p1 := Pin(c.id, 1);
    if p0 in nodes && p1 in nodes then Outflow(nodes[p0], nodes[p1], k, CurrentOf(c)) else 0.0
  }

  /** The total current the components send out of node `k`. */
  function NetLeaving(rs: seq<Component>, nodes: map<Pin, nat>, k: nat): real
  {
    if |rs| == 0 then 0.0 else Leaving(rs[0], nodes, k) + NetLeaving(rs[1..], nodes, k)
  }

  lemma {:induction false} ConductanceCurrent(r: real, v1: real, v2: real)
    requires r > 0.0
    ensures (1.0 / r) * v1 - (1.0 / r) * v2 == (v1 - v2) / r
  {
  }

  /** A passive component's reading sends out exactly the current its stamp
      accounts for. */
  lemma {:induction false} PassiveReadingFlow(c: Component, nodes: map<Pin, nat>, x: seq<real>, nv: nat, bs: seq<Component>, k: nat)
    requires c.kind != BATTERY && Pin(c.id, 0) in nodes && Pin(c.id, 1) in nodes
    ensures Leaving(Reading(c, nodes, x, nv, bs), nodes, k) == StampFlow(c, nodes, x, k)
  {
    var r := Reading(c, nodes, x, nv, bs);
    if Resistance(c).Some? {
      var v1 := Potential(x, nodes[Pin(c.id, 0)]);
      var v2 := Potential(x, nodes[Pin(c.id, 1)]);
      ConductanceCurrent(Resistance(c).value, v1, v2);
      assert CurrentOf(r) == (v1 - v2) / Resistance(c).value;
    }
  }

  /** A battery's reading sends out exactly the term its column adds. */
  lemma {:induction false} BatteryReadingFlow(c: Component, nodes: map<Pin, nat>, x: seq<real>, nv: nat, bs: seq<Component>, off: nat, k: nat)
    requires c.kind == BATTERY && Pin(c.id, 0) in nodes && Pin(c.id, 1) in nodes && k > 0
    requires nodes[Pin(c.id, 0)] != nodes[Pin(c.id, 1)]
    requires FindBattery(bs, c.id) == off
    ensures Leaving(Reading(c, nodes, x, nv, bs), nodes, k) == BattTerm(c, nodes, x, nv + off, k)
  {
  }

  lemma {:induction false} BatteriesPrefix(cs: seq<Component>, i: nat)
    requires 0 < i <= |cs|
    ensures Batteries(cs[..i]) == (if cs[0].kind == BATTERY then [cs[0]] else []) + Batteries(cs[1..][..i - 1])
  {
    assert cs[..i][1..] == cs[1..][..i - 1];
  }

  /** Summed over a run of components, the readings' currents out of node
      `k` equal the stamps' terms of that node's row. */
  lemma {:induction false} FlowsMatchReadings(cs: seq<Component>, nodes: map<Pin, nat>, x: seq<real>, nv: nat, bs: seq<Component>, off: nat, k: nat)
    requires k > 0
    requires forall i :: 0 <= i < |cs| ==> Pin(cs[i].id, 0) in nodes && Pin(cs[i].id, 1) in nodes
    requires forall i :: 0 <= i < |cs| && cs[i].kind == BATTERY ==> nodes[Pin(cs[i].id, 0)] != nodes[Pin(cs[i].id, 1)]
    requires forall i :: 0 <= i < |cs| && cs[i].kind == BATTERY ==> FindBattery(bs, cs[i].id) == off + |Batteries(cs[..i])|
    ensures NetLeaving(Readings(cs, nodes, x, nv, bs), nodes, k) == StampFlows(cs, nodes, x, k) + BattFlows(Batteries(cs), nodes, x, nv, off, k)
    decreases |cs|
  {
    if |cs| > 0 {
      var c := cs[0];
      var rest := cs[1..];
      var rs := Readings(cs, nodes, x, nv, bs);
      assert rs[1..] == Readings(rest, nodes, x, nv, bs);
      var off' := if c.kind == BATTERY then off + 1 else off;
      RestOffsets(cs, bs, off);
      FlowsMatchReadings(rest, nodes, x, nv, bs, off', k);
      assert cs[..0] == [];
      HeadReadingFlow(c, nodes, x, nv, bs, off, k);
      BattFlowsHead(cs, nodes, x, nv, off, k);
    }
  }

  /** The battery terms of a run split into its first component's and its
      tail's, the tail's offset moving past a leading battery. */
  lemma {:induction false} BattFlowsHead(cs: seq<Component>, nodes: map<Pin, nat>, x: seq<real>, nv: nat, off: nat, k: nat)
    requires |cs| > 0
    ensures BattFlows(Batteries(cs), nodes, x, nv, off, k)
      == if cs[0].kind == BATTERY
         then BattTerm(cs[0], nodes, x, nv + off, k) + BattFlows(Batteries(cs[1..]), nodes, x, nv, off + 1, k)
         else BattFlows(Batteries(cs[1..]), nodes, x, nv, off, k)
  {
    assert Batteries(cs) == (if cs[0].kind == BATTERY then [cs[0]] else []) + Batteries(cs[1..]);
    if cs[0].kind == BATTERY {
      var bs := Batteries(cs);
      assert |bs| > 0 && bs[0] == cs[0] && bs[1..] == Batteries(cs[1..]);
    } else {
      assert Batteries(cs) == Batteries(cs[1..]);
    }
  }

  /** The battery offsets of a run carry over to its tail, shifted past a
      leading battery. */
  lemma {:induction false} RestOffsets(cs: seq<Component>, bs: seq<Component>, off: nat)
    requires |cs| > 0
    requires forall i :: 0 <= i < |cs| && cs[i].kind == BATTERY ==> FindBattery(bs, cs[i].id) == off + |Batteries(cs[..i])|
    ensures forall i :: 0 <= i < |cs| - 1 && cs[1..][i].kind == BATTERY ==>
      FindBattery(bs, cs[1..][i].id) == (if cs[0].kind == BATTERY then off + 1 else off) + |Batteries(cs[1..][..i])|
  {
    var rest := cs[1..];
    forall i | 0 <= i < |rest| && rest[i].kind == BATTERY
      ensures FindBattery(bs, rest[i].id) == (if cs[0].kind == BATTERY then off + 1 else off) + |Batteries(rest[..i])|
    {
      assert rest[i] == cs[i + 1];
      BatteriesPrefix(cs, i + 1);
    }
  }

  /** One component's reading sends out its stamp's current plus, for a
      battery, its column term in node `k`'s row. */
  lemma {:induction false} HeadReadingFlow(c: Component, nodes: map<Pin, nat>, x: seq<real>, nv: nat, bs: seq<Component>, off: nat, k: nat)
    requires k > 0 && Pin(c.id, 0) in nodes && Pin(c.id, 1) in nodes
    requires c.kind == BATTERY ==> nodes[Pin(c.id, 0)] != nodes[Pin(c.id, 1)] && FindBattery(bs, c.id) == off
    ensures Leaving(Reading(c, nodes, x, nv, bs), nodes, k)
      == StampFlow(c, nodes, x, k) + (if c.kind == BATTERY then BattTerm(c, nodes, x, nv + off, k) else 0.0)
  {
    if c.kind == BATTERY {
      BatteryReadingFlow(c, nodes, x, nv, bs, off, k);
    } else {
      PassiveReadingFlow(c, nodes, x, nv, bs, k);
    }
  }

  /** With unique ids, the first battery with a component's id is the one at
      its own position in the battery list. */
  lemma {:induction false} BatteryPosition(comps: seq<Component>, i: nat)
    requires UniqueIds(comps) && i < |comps| && comps[i].kind == BATTERY
    ensures FindBattery(Batteries(comps), comps[i].id) == |Batteries(comps[..i])|
  {
    var bs := Batteries(comps);
    BatteryAt(comps, i);
    BatteriesAppend(comps[..i], comps[i..]);
    assert comps[..i] + comps[i..] == comps;
    var u := |Batteries(comps[..i])|;
    forall t | 0 <= t < u ensures bs[t].id != comps[i].id {
      assert bs[t] == Batteries(comps[..i])[t];
      var j := BatterySource(comps[..i], t);
      assert comps[j] == bs[t];
    }
  }

  /** In any solution of the assembled system, the currents the readings
      report sum to zero at every node other than ground. */
  lemma {:induction false} CurrentBalanceInSolution(comps: seq<Component>, nodes: map<Pin, nat>, nv: nat, x: seq<real>, k: nat)
    requires NodesBelow(nodes, nv) && |x| == nv + |Batteries(comps)|
    requires Solves(Assemble(comps, nodes, nv).0, nv + |Batteries(comps)|, x, Assemble(comps, nodes, nv).1)
    requires UniqueIds(comps) && 0 < k <= nv
    requires Placed(comps, nodes)
    ensures NetLeaving(Readings(comps, nodes, x, nv, Batteries(comps)), nodes, k) == 0.0
  {
    NodeRowSolved(comps, nodes, nv, x, k - 1);
    ReadingsMatchStamps(comps, nodes, x, nv, k);
  }

  /** With unique ids, the readings' currents out of node `k` are the terms
      of that node's row. */
  lemma {:induction false} ReadingsMatchStamps(comps: seq<Component>, nodes: map<Pin, nat>, x: seq<real>, nv: nat, k: nat)
    requires UniqueIds(comps) && k > 0
    requires forall i :: 0 <= i < |comps| ==> Pin(comps[i].id, 0) in nodes && Pin(comps[i].id, 1) in nodes
    requires forall i :: 0 <= i < |comps| && comps[i].kind == BATTERY ==> nodes[Pin(comps[i].id, 0)] != nodes[Pin(comps[i].id, 1)]
    ensures NetLeaving(Readings(comps, nodes, x, nv, Batteries(comps)), nodes, k)
      == StampFlows(comps, nodes, x, k) + BattFlows(Batteries(comps), nodes, x, nv, 0, k)
  {
    var bs := Batteries(comps);
    forall i | 0 <= i < |comps| && comps[i].kind == BATTERY
      ensures FindBattery(bs, comps[i].id) == 0 + |Batteries(comps[..i])|
    {
      BatteryPosition(comps, i);
    }
    FlowsMatchReadings(comps, nodes, x, nv, bs, 0, k);
  }

  /** Written back from a solution of the assembled system, or cleared when
      there is none, the reported currents balance at every node other than
      ground. */
  lemma {:induction false} CurrentBalanceWritten(comps: seq<Component>, nodes: map<Pin, nat>, nv: nat, sol: Option<seq<real>>, k: nat)
    requires NodesBelow(nodes, nv)
    requires SolvedAssembly(comps, nodes, nv, sol)
    requires UniqueIds(comps) && 0 < k <= nv
    requires Placed(comps, nodes)
    ensures NetLeaving(WriteBack(comps, nodes, nv, sol).components, nodes, k) == 0.0
  {
    if sol.None? {
      ZeroCurrentsBalance(WriteBack(comps, nodes, nv, sol).components, nodes, k);
    } else {
      WrittenReadings(comps, nodes, nv, sol);
      CurrentBalanceInSolution(comps, nodes, nv, sol.value, k);
    }
  }

  /** Readings that all report zero current send nothing out of any node. */
  lemma {:induction false} ZeroCurrentsBalance(rs: seq<Component>, nodes: map<Pin, nat>, k: nat)
    requires forall i :: 0 <= i < |rs| ==> rs[i].current == Some(0.0)
    ensures NetLeaving(rs, nodes, k) == 0.0
  {
    if |rs| > 0 {
      ZeroCurrentsBalance(rs[1..], nodes, k);
    }
  }

  /** The same for the solver's own vector, on any numbering of the nodes. */
  lemma {:induction false} CurrentBalanceOnNodes(comps: seq<Component>, nodes: map<Pin, nat>, nv: nat, k: nat)
    requires NodesBelow(nodes, nv)
    requires UniqueIds(comps) && 0 < k <= nv
    requires Placed(comps, nodes)
    ensures NetLeaving(SolveNodes(comps, nodes, nv).components, nodes, k) == 0.0
  {
    AssembledSolution(comps, nodes, nv);
    CurrentBalanceWritten(comps, nodes, nv, Solve(Assemble(comps, nodes, nv).0, Assemble(comps, nodes, nv).1, nv + |Batteries(comps)|), k);
  }

  /** Kirchhoff's current law: when ids are unique and no battery has both
      terminals on one node, the currents the components report sum to
      zero at every node other than ground. On an open circuit every
      reported current is zero, so the law holds there too. */
  lemma {:induction false} KirchhoffCurrentLaw(comps: seq<Component>, wires: seq<Wire>, k: nat)
    requires UniqueIds(comps)
    requires forall i :: 0 <= i < |comps| && comps[i].kind == BATTERY ==>
      NodeOf(Nodes(comps, wires), Pin(comps[i].id, 0)) != NodeOf(Nodes(comps, wires), Pin(comps[i].id, 1))
    requires 0 < k < |Groups(comps, wires)|
    ensures NetLeaving(SolveCircuit(comps, wires).components, Nodes(comps, wires), k) == 0.0
  {
    PlacedByGrouping(comps, wires);
    SolveCircuitOnNodes(comps, wires);
    CurrentBalanceOnNodes(comps, Nodes(comps, wires), VoltageNodeCount(comps, wires), k);
  }

  /** The grouping gives every terminal a node; the batteries are apart by
      assumption. */
  lemma {:induction false} PlacedByGrouping(comps: seq<Component>, wires: seq<Wire>)
    requires forall i :: 0 <= i < |comps| && comps[i].kind == BATTERY ==>
      NodeOf(Nodes(comps, wires), Pin(comps[i].id, 0)) != NodeOf(Nodes(comps, wires), Pin(comps[i].id, 1))
    ensures Placed(comps, Nodes(comps, wires))
  {
    forall i | 0 <= i < |comps|
      ensures Pin(comps[i].id, 0) in Nodes(comps, wires) && Pin(comps[i].id, 1) in Nodes(comps, wires)
    {
      TerminalsHaveNodes(comps, wires, i);
    }
  }
}
