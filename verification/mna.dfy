/** Modified nodal analysis assembly: the resistance table, the conductance
    stamps of the passive components and the row and column of every
    battery. Node 0 is ground and has no row; node `k > 0` owns row `k - 1`;
    battery `t` owns row and column `nv + t`. */
module Mna {
  import opened Circuit
  import opened LinearSystem

  function Max(a: real, b: real): (r: real)
    ensures r >= a && r >= b && (r == a || r == b)
  {
    if a >= b then a else b
  }

  /** The resistance the solver gives a component, `None` standing for an
      infinite one. A switch counts as closed unless its flag is set. */
  function Resistance(c: Component): (r: Option<real>)
    ensures r.Some? ==> r.value > 0.0
    ensures r.None? <==> c.kind in {VOLTMETER, BATTERY, WIRE} || (c.kind == SWITCH && c.isOpen == Some(true))
    ensures c.kind == RESISTOR ==> r == Some(if c.value < 0.001 then 0.001 else c.value)
    ensures c.kind == RHEOSTAT ==> r == Some(if c.value < 0.1 then 0.1 else c.value)
    ensures c.kind == BULB ==> r == Some(10.0)
    ensures c.kind == AMMETER ==> r == Some(0.01)
    ensures c.kind == SWITCH && c.isOpen != Some(true) ==> r == Some(0.001)
  {
    match c.kind
    case RESISTOR => Some(Max(0.001, c.value))
    case RHEOSTAT => Some(Max(0.1, c.value))
    case BULB => Some(10.0)
    case AMMETER => Some(0.01)
    case SWITCH => if c.isOpen == Some(true) then None else Some(0.001)
    case _ => None
  }

  /** A larger value never gives a smaller resistance: the floors of the
      resistor and the rheostat only raise small values, and every other
      kind ignores the value. */
  lemma {:induction false} ResistanceMonotone(c: Component, v: real, w: real)
    requires v <= w
    ensures Resistance(c.(value := v)).Some? == Resistance(c.(value := w)).Some?
    ensures Resistance(c.(value := v)).Some? ==> Resistance(c.(value := v)).value <= Resistance(c.(value := w)).value
  {
  }

  /** The node of a pin, `None` when the pin has no node. */
  function NodeOf(nodes: map<Pin, nat>, p: Pin): (o: Option<nat>)
    ensures o.Some? <==> p in nodes
    ensures o.Some? ==> o.value == nodes[p]
  {
    if p in nodes then Some(nodes[p]) else None
  }

  /** Node numbers run from 0 (ground) to `nv`. */
  predicate NodesBelow(nodes: map<Pin, nat>, nv: nat)
  {
    forall p :: p in nodes ==> nodes[p] <= nv
  }

  /** The potential of node `k` in a solution: 0 for ground, entry `k - 1`
      otherwise. */
  function Potential(x: seq<real>, k: nat): real
  {
    if k == 0 then 0.0 else At(x, k - 1)
  }

  /** Entry `i` of a solution, 0 past its end. */
  function At(x: seq<real>, i: nat): real
  {
    if i < |x| then x[i] else 0.0
  }

  // ---------------------------------------------------------------------
  // Matrix primitives

  function Zeros(n: nat): (v: seq<real>)
    ensures |v| == n && forall k :: 0 <= k < n ==> v[k] == 0.0
  {
    seq(n, k => 0.0)
  }

  function ZeroMatrix(n: nat): (m: Matrix)
    ensures IsSquare(m, n)
    ensures forall i, j :: 0 <= i < n && 0 <= j < n ==> m[i][j] == 0.0
  {
    seq(n, i => seq(n, j => 0.0))
  }

  function SetAt(m: Matrix, n: nat, i: nat, j: nat, v: real): (r: Matrix)
    requires IsSquare(m, n) && i < n && j < n
    ensures IsSquare(r, n) && r[i][j] == v
  {
    m[i := m[i][j := v]]
  }

  function AddAt(m: Matrix, n: nat, i: nat, j: nat, d: real): (r: Matrix)
    requires IsSquare(m, n) && i < n && j < n
    ensures IsSquare(r, n) && r[i][j] == m[i][j] + d
  {
    SetAt(m, n, i, j, m[i][j] + d)
  }

  ghost predicate Symmetric(m: Matrix, n: nat)
    requires IsSquare(m, n)
  {
    forall a, b :: 0 <= a < n && 0 <= b < n ==> m[a][b] == m[b][a]
  }

  // ---------------------------------------------------------------------
  // Conductance stamps

  /** `addConductance`: `g` on the diagonal of each non-ground end, `-g` at
      the two crossings when both ends are non-ground. */
  function AddConductance(m: Matrix, n: nat, nv: nat, n1: nat, n2: nat, g: real): (r: Matrix)
    requires IsSquare(m, n) && nv <= n && n1 <= nv && n2 <= nv
    ensures IsSquare(r, n)
    ensures forall a, b {:trigger r[a][b]} :: 0 <= a < n && 0 <= b < n && (a >= nv || b >= nv) ==> r[a][b] == m[a][b]
  {
    var m1 := if n1 > 0 then AddAt(m, n, n1 - 1, n1 - 1, g) else m;
    var m2 := if n2 > 0 then AddAt(m1, n, n2 - 1, n2 - 1, g) else m1;
    if n1 > 0 && n2 > 0 then AddAt(AddAt(m2, n, n1 - 1, n2 - 1, -g), n, n2 - 1, n1 - 1, -g) else m2
  }

  /** The stamp of one component: voltmeters and batteries are skipped, and
      so is an infinite resistance or a terminal without a node. */
  function StampComponent(m: Matrix, n: nat, nv: nat, nodes: map<Pin, nat>, c: Component): (r: Matrix)
    requires IsSquare(m, n) && nv <= n && NodesBelow(nodes, nv)
    ensures IsSquare(r, n)
    ensures forall a, b {:trigger r[a][b]} :: 0 <= a < n && 0 <= b < n && (a >= nv || b >= nv) ==> r[a][b] == m[a][b]
  {
    var p0 := Pin(c.id, 0);
    var p1 := Pin(c.id, 1);
    if c.kind == VOLTMETER || c.kind == BATTERY then m
    else if p0 in nodes && p1 in nodes && Resistance(c).Some? then
      AddConductance(m, n, nv, nodes[p0], nodes[p1], 1.0 / Resistance(c).value)
    else m
  }

  /** The component loop, in list order. */
  function StampComponents(m: Matrix, n: nat, nv: nat, nodes: map<Pin, nat>, comps: seq<Component>): (r: Matrix)
    requires IsSquare(m, n) && nv <= n && NodesBelow(nodes, nv)
    ensures IsSquare(r, n)
    ensures forall a, b {:trigger r[a][b]} :: 0 <= a < n && 0 <= b < n && (a >= nv || b >= nv) ==> r[a][b] == m[a][b]
    decreases |comps|
  {
    if |comps| == 0 then m
    else StampComponents(StampComponent(m, n, nv, nodes, comps[0]), n, nv, nodes, comps[1..])
  }

  // ---------------------------------------------------------------------
  // Battery stamps

  /** The battery loop body: row `nv + idx` gets 1 at the positive node and
      -1 at the negative node (written second, so it wins when both are the
      same node), the column gets the same two writes, and the right-hand
      side gets the battery's voltage. Ground entries are skipped. */
  function StampBattery(m: Matrix, rhs: seq<real>, n: nat, nv: nat, nodes: map<Pin, nat>, c: Component, idx: nat): (r: (Matrix, seq<real>))
    requires IsSquare(m, n) && |rhs| == n && NodesBelow(nodes, nv) && nv + idx < n
    ensures IsSquare(r.0, n) && |r.1| == n
    ensures r.1 == rhs[nv + idx := c.value]
    ensures forall a, b :: 0 <= a < n && 0 <= b < n && !(a == nv + idx && b < nv) && !(b == nv + idx && a < nv) ==> r.0[a][b] == m[a][b]
  {
    var row := nv + idx;
    var n1 := NodeOf(nodes, Pin(c.id, 0));
    var n2 := NodeOf(nodes, Pin(c.id, 1));
    var m1 := if n1.Some? && n1.value > 0 then SetAt(m, n, row, n1.value - 1, 1.0) else m;
    var m2 := if n2.Some? && n2.value > 0 then SetAt(m1, n, row, n2.value - 1, -1.0) else m1;
    var m3 := if n1.Some? && n1.value > 0 then SetAt(m2, n, n1.value - 1, row, 1.0) else m2;
    var m4 := if n2.Some? && n2.value > 0 then SetAt(m3, n, n2.value - 1, row, -1.0) else m3;
    (m4, rhs[row := c.value])
  }

  /** The battery loop, battery `t` of `bs` getting index `idx + t`. */
  function StampBatteries(m: Matrix, rhs: seq<real>, n: nat, nv: nat, nodes: map<Pin, nat>, bs: seq<Component>, idx: nat): (r: (Matrix, seq<real>))
    requires IsSquare(m, n) && |rhs| == n && NodesBelow(nodes, nv) && nv + idx + |bs| <= n
    ensures IsSquare(r.0, n) && |r.1| == n
    ensures forall k :: 0 <= k < n && (k < nv + idx || k >= nv + idx + |bs|) ==> r.1[k] == rhs[k]
    ensures forall t :: 0 <= t < |bs| ==> r.1[nv + idx + t] == bs[t].value
    decreases |bs|
  {
    if |bs| == 0 then (m, rhs)
    else
      var s := StampBattery(m, rhs, n, nv, nodes, bs[0], idx);
      var r := StampBatteries(s.0, s.1, n, nv, nodes, bs[1..], idx + 1);
      assert forall t :: 1 <= t < |bs| ==> bs[t] == bs[1..][t - 1];
      assert forall t :: 1 <= t < |bs| ==> r.1[nv + idx + t] == bs[t].value by {
        forall t | 1 <= t < |bs| ensures r.1[nv + idx + t] == bs[t].value {
          assert nv + idx + t == nv + (idx + 1) + (t - 1);
        }
      }
      r
  }

  /** The conductance matrix and right-hand side of the circuit, of size
      `nv` plus the battery count. */
  function Assemble(comps: seq<Component>, nodes: map<Pin, nat>, nv: nat): (r: (Matrix, seq<real>))
    requires NodesBelow(nodes, nv)
    ensures IsSquare(r.0, nv + |Batteries(comps)|) && |r.1| == nv + |Batteries(comps)|
    ensures forall k :: 0 <= k < nv ==> r.1[k] == 0.0
    ensures forall t :: 0 <= t < |Batteries(comps)| ==> r.1[nv + t] == Batteries(comps)[t].value
  {
    var bs := Batteries(comps);
    var n := nv + |bs|;
    var g := StampComponents(ZeroMatrix(n), n, nv, nodes, comps);
    StampBatteries(g, Zeros(n), n, nv, nodes, bs, 0)
  }

  // ---------------------------------------------------------------------
  // Symmetry

  /** What one conductance stamp adds at entry (a, b). */
  function CondDelta(n1: nat, n2: nat, g: real, a: nat, b: nat): real
  {
    (if n1 > 0 && a == n1 - 1 && b == n1 - 1 then g else 0.0)
    + (if n2 > 0 && a == n2 - 1 && b == n2 - 1 then g else 0.0)
    - (if n1 > 0 && n2 > 0 && a == n1 - 1 && b == n2 - 1 then g else 0.0)
    - (if n1 > 0 && n2 > 0 && a == n2 - 1 && b == n1 - 1 then g else 0.0)
  }

  lemma {:induction false} AddConductanceEntry(m: Matrix, n: nat, nv: nat, n1: nat, n2: nat, g: real, a: nat, b: nat)
    requires IsSquare(m, n) && nv <= n && n1 <= nv && n2 <= nv && a < n && b < n
    ensures AddConductance(m, n, nv, n1, n2, g)[a][b] == m[a][b] + CondDelta(n1, n2, g, a, b)
  {
  }

  /** A conductance stamp keeps a symmetric matrix symmetric. */
  lemma {:induction false} AddConductanceSymmetric(m: Matrix, n: nat, nv: nat, n1: nat, n2: nat, g: real)
    requires IsSquare(m, n) && nv <= n && n1 <= nv && n2 <= nv && Symmetric(m, n)
    ensures Symmetric(AddConductance(m, n, nv, n1, n2, g), n)
  {
    var r := AddConductance(m, n, nv, n1, n2, g);
    forall a, b | 0 <= a < n && 0 <= b < n ensures r[a][b] == r[b][a] {
      AddConductanceEntry(m, n, nv, n1, n2, g, a, b);
      AddConductanceEntry(m, n, nv, n1, n2, g, b, a);
    }
  }

  lemma {:induction false} StampComponentsSymmetric(m: Matrix, n: nat, nv: nat, nodes: map<Pin, nat>, comps: seq<Component>)
    requires IsSquare(m, n) && nv <= n && NodesBelow(nodes, nv) && Symmetric(m, n)
    ensures Symmetric(StampComponents(m, n, nv, nodes, comps), n)
    decreases |comps|
  {
    if |comps| > 0 {
      var c := comps[0];
      var p0 := Pin(c.id, 0);
      var p1 := Pin(c.id, 1);
      if !(c.kind == VOLTMETER || c.kind == BATTERY) && p0 in nodes && p1 in nodes && Resistance(c).Some? {
        AddConductanceSymmetric(m, n, nv, nodes[p0], nodes[p1], 1.0 / Resistance(c).value);
      }
      StampComponentsSymmetric(StampComponent(m, n, nv, nodes, c), n, nv, nodes, comps[1..]);
    }
  }

  /** The rows and columns of batteries `idx` and later are still zero. */
  ghost predicate Unstamped(m: Matrix, n: nat, nv: nat, idx: nat)
    requires IsSquare(m, n)
  {
    forall a, b :: 0 <= a < n && 0 <= b < n && (a >= nv + idx || b >= nv + idx) ==> m[a][b] == 0.0
  }

  /** The coefficient a battery with terminal nodes `n1`, `n2` leaves at
      node `k`: -1 at its negative node, else 1 at its positive node, else
      0; ground has no entry. */
  function BattCoef(n1: Option<nat>, n2: Option<nat>, k: nat): real
  {
    if k > 0 && n2 == Some(k) then -1.0 else if k > 0 && n1 == Some(k) then 1.0 else 0.0
  }

  /** A battery writes the same coefficient into its row and its column. */
  lemma {:induction false} StampBatteryEntries(m: Matrix, rhs: seq<real>, n: nat, nv: nat, nodes: map<Pin, nat>, c: Component, idx: nat, a: nat)
    requires IsSquare(m, n) && |rhs| == n && NodesBelow(nodes, nv) && nv + idx < n && a < nv
    requires m[nv + idx][a] == 0.0 && m[a][nv + idx] == 0.0
    ensures var r := StampBattery(m, rhs, n, nv, nodes, c, idx).0;
      var n1 := NodeOf(nodes, Pin(c.id, 0));
      var n2 := NodeOf(nodes, Pin(c.id, 1));
      r[nv + idx][a] == BattCoef(n1, n2, a + 1) && r[a][nv + idx] == BattCoef(n1, n2, a + 1)
  {
  }

  lemma {:induction false} StampBatterySymmetric(m: Matrix, rhs: seq<real>, n: nat, nv: nat, nodes: map<Pin, nat>, c: Component, idx: nat)
    requires IsSquare(m, n) && |rhs| == n && NodesBelow(nodes, nv) && nv + idx < n
    requires Symmetric(m, n) && Unstamped(m, n, nv, idx)
    ensures var r := StampBattery(m, rhs, n, nv, nodes, c, idx).0;
      Symmetric(r, n) && Unstamped(r, n, nv, idx + 1)
  {
    var r := StampBattery(m, rhs, n, nv, nodes, c, idx).0;
    var row := nv + idx;
    forall a, b | 0 <= a < n && 0 <= b < n ensures r[a][b] == r[b][a] {
      if a == row && b < nv {
        StampBatteryEntries(m, rhs, n, nv, nodes, c, idx, b);
      } else if b == row && a < nv {
        StampBatteryEntries(m, rhs, n, nv, nodes, c, idx, a);
      }
    }
  }

  lemma {:induction false} StampBatteriesSymmetric(m: Matrix, rhs: seq<real>, n: nat, nv: nat, nodes: map<Pin, nat>, bs: seq<Component>, idx: nat)
    requires IsSquare(m, n) && |rhs| == n && NodesBelow(nodes, nv) && nv + idx + |bs| <= n
    requires Symmetric(m, n) && Unstamped(m, n, nv, idx)
    ensures Symmetric(StampBatteries(m, rhs, n, nv, nodes, bs, idx).0, n)
    decreases |bs|
  {
    if |bs| > 0 {
      var s := StampBattery(m, rhs, n, nv, nodes, bs[0], idx);
      StampBatterySymmetric(m, rhs, n, nv, nodes, bs[0], idx);
      StampBatteriesSymmetric(s.0, s.1, n, nv, nodes, bs[1..], idx + 1);
    }
  }

  /** The assembled matrix is symmetric. */
  lemma {:induction false} AssembleSymmetric(comps: seq<Component>, nodes: map<Pin, nat>, nv: nat)
    requires NodesBelow(nodes, nv)
    ensures Symmetric(Assemble(comps, nodes, nv).0, nv + |Batteries(comps)|)
  {
    var bs := Batteries(comps);
    var n := nv + |bs|;
    var z := ZeroMatrix(n);
    var g := StampComponents(z, n, nv, nodes, comps);
    StampComponentsSymmetric(z, n, nv, nodes, comps);
    StampBatteriesSymmetric(g, Zeros(n), n, nv, nodes, bs, 0);
  }

  // ---------------------------------------------------------------------
  // What each row of the system says

  /** Row `a` of `m` times `x`. */
  function RowDot(m: Matrix, n: nat, a: nat, x: seq<real>): real
    requires IsSquare(m, n) && a < n && |x| == n
  {
    DotRange(m[a], x, 0, n)
  }

  lemma {:induction false} DotRangeSameRow(r: seq<real>, s: seq<real>, x: seq<real>, lo: nat, hi: nat)
    requires lo <= hi <= |r| && hi <= |s| && hi <= |x|
    requires forall k :: lo <= k < hi ==> r[k] == s[k]
    ensures DotRange(r, x, lo, hi) == DotRange(s, x, lo, hi)
    decreases hi - lo
  {
    if lo < hi {
      DotRangeSameRow(r, s, x, lo + 1, hi);
    }
  }

  lemma {:induction false} DotRangeUpdate(r: seq<real>, x: seq<real>, j: nat, v: real, lo: nat, hi: nat)
    requires lo <= j < hi <= |r| && hi <= |x|
    ensures DotRange(r[j := v], x, lo, hi) == DotRange(r, x, lo, hi) + (v - r[j]) * x[j]
    decreases hi - lo
  {
    if lo == j {
      DotRangeSameRow(r[j := v], r, x, lo + 1, hi);
      assert v * x[j] == r[j] * x[j] + (v - r[j]) * x[j];
    } else {
      DotRangeUpdate(r, x, j, v, lo + 1, hi);
    }
  }

  lemma {:induction false} SetAtDot(m: Matrix, n: nat, i: nat, j: nat, v: real, x: seq<real>, a: nat)
    requires IsSquare(m, n) && i < n && j < n && a < n && |x| == n
    ensures RowDot(SetAt(m, n, i, j, v), n, a, x) == RowDot(m, n, a, x) + (if a == i then (v - m[i][j]) * x[j] else 0.0)
  {
    if a == i {
      assert SetAt(m, n, i, j, v)[a] == m[i][j := v];
      DotRangeUpdate(m[i], x, j, v, 0, n);
    } else {
      assert SetAt(m, n, i, j, v)[a] == m[a];
    }
  }

  lemma {:induction false} AddAtDot(m: Matrix, n: nat, i: nat, j: nat, d: real, x: seq<real>, a: nat)
    requires IsSquare(m, n) && i < n && j < n && a < n && |x| == n
    ensures RowDot(AddAt(m, n, i, j, d), n, a, x) == RowDot(m, n, a, x) + (if a == i then d * x[j] else 0.0)
  {
    SetAtDot(m, n, i, j, m[i][j] + d, x, a);
    assert m[i][j] + d - m[i][j] == d;
  }

  /** The current leaving node `k` through a branch that carries `i` from
      node `n1` to node `n2`. */
  function Outflow(n1: nat, n2: nat, k: nat, i: real): real
  {
    (if k == n1 then i else 0.0) - (if k == n2 then i else 0.0)
  }

  /** A conductance stamp adds, to row `a`, the current the branch sends
      out of node `a + 1`. */
  lemma {:induction false} AddConductanceDot(m: Matrix, n: nat, nv: nat, n1: nat, n2: nat, g: real, x: seq<real>, a: nat)
    requires IsSquare(m, n) && nv <= n && n1 <= nv && n2 <= nv && a < nv && |x| == n
    ensures RowDot(AddConductance(m, n, nv, n1, n2, g), n, a, x)
      == RowDot(m, n, a, x) + Outflow(n1, n2, a + 1, g * Potential(x, n1) - g * Potential(x, n2))
  {
    var v1 := Potential(x, n1);
    var v2 := Potential(x, n2);
    StampTermsDot(m, n, nv, n1, n2, g, x, a);
    StampTermsOutflow(n1, n2, a, g, v1, v2);
  }

  /** The four entries a conductance stamp touches in row `a`, each times
      the potential of its column's node. */
  function StampTerms(n1: nat, n2: nat, a: nat, g: real, v1: real, v2: real): real
  {
    (if n1 > 0 && a == n1 - 1 then g * v1 else 0.0)
    + (if n2 > 0 && a == n2 - 1 then g * v2 else 0.0)
    + (if n1 > 0 && n2 > 0 && a == n1 - 1 then -g * v2 else 0.0)
    + (if n1 > 0 && n2 > 0 && a == n2 - 1 then -g * v1 else 0.0)
  }

  lemma {:induction false} StampTermsDot(m: Matrix, n: nat, nv: nat, n1: nat, n2: nat, g: real, x: seq<real>, a: nat)
    requires IsSquare(m, n) && nv <= n && n1 <= nv && n2 <= nv && a < nv && |x| == n
    ensures RowDot(AddConductance(m, n, nv, n1, n2, g), n, a, x)
      == RowDot(m, n, a, x) + StampTerms(n1, n2, a, g, Potential(x, n1), Potential(x, n2))
  {
    var m1 := if n1 > 0 then AddAt(m, n, n1 - 1, n1 - 1, g) else m;
    var m2 := if n2 > 0 then AddAt(m1, n, n2 - 1, n2 - 1, g) else m1;
    DiagonalDot(m, n, n1, n2, g, x, a);
    if n1 > 0 && n2 > 0 {
      CrossDot(m2, n, n1, n2, g, x, a);
    }
  }

  /** The two diagonal entries of a conductance stamp, in row `a`. */
  lemma {:induction false} DiagonalDot(m: Matrix, n: nat, n1: nat, n2: nat, g: real, x: seq<real>, a: nat)
    requires IsSquare(m, n) && n1 <= n && n2 <= n && a < n && |x| == n
    ensures var m1 := if n1 > 0 then AddAt(m, n, n1 - 1, n1 - 1, g) else m;
      var m2 := if n2 > 0 then AddAt(m1, n, n2 - 1, n2 - 1, g) else m1;
      RowDot(m2, n, a, x) == RowDot(m, n, a, x)
        + (if n1 > 0 && a == n1 - 1 then g * Potential(x, n1) else 0.0)
        + (if n2 > 0 && a == n2 - 1 then g * Potential(x, n2) else 0.0)
  {
    var m1 := if n1 > 0 then AddAt(m, n, n1 - 1, n1 - 1, g) else m;
    if n1 > 0 { AddAtDot(m, n, n1 - 1, n1 - 1, g, x, a); }
    if n2 > 0 { AddAtDot(m1, n, n2 - 1, n2 - 1, g, x, a); }
  }

  /** The two off-diagonal entries of a conductance stamp, in row `a`. */
  lemma {:induction false} CrossDot(m: Matrix, n: nat, n1: nat, n2: nat, g: real, x: seq<real>, a: nat)
    requires IsSquare(m, n) && 0 < n1 <= n && 0 < n2 <= n && a < n && |x| == n
    ensures RowDot(AddAt(AddAt(m, n, n1 - 1, n2 - 1, -g), n, n2 - 1, n1 - 1, -g), n, a, x)
      == RowDot(m, n, a, x) + (if a == n1 - 1 then -g * Potential(x, n2) else 0.0)
        + (if a == n2 - 1 then -g * Potential(x, n1) else 0.0)
  {
    var m3 := AddAt(m, n, n1 - 1, n2 - 1, -g);
    AddAtDot(m, n, n1 - 1, n2 - 1, -g, x, a);
    AddAtDot(m3, n, n2 - 1, n1 - 1, -g, x, a);
  }

  /** Without the ground node's row and column, the stamp's terms are the
      branch current leaving node `a + 1`. */
  lemma {:induction false} StampTermsOutflow(n1: nat, n2: nat, a: nat, g: real, v1: real, v2: real)
    requires n1 == 0 ==> v1 == 0.0
    requires n2 == 0 ==> v2 == 0.0
    ensures StampTerms(n1, n2, a, g, v1, v2) == Outflow(n1, n2, a + 1, g * v1 - g * v2)
  {
  }

  /** The current a component's stamp sends out of node `k` under the
      potentials `x`: nothing for a skipped component. */
  function StampFlow(c: Component, nodes: map<Pin, nat>, x: seq<real>, k: nat): real
  {
    var p0 := Pin(c.id, 0);
    var p1 := Pin(c.id, 1);
    if c.kind == VOLTMETER || c.kind == BATTERY then 0.0
    else if p0 in nodes && p1 in nodes && Resistance(c).Some? then
      var g := 1.0 / Resistance(c).value;
      Outflow(nodes[p0], nodes[p1], k, g * Potential(x, nodes[p0]) - g * Potential(x, nodes[p1]))
    else 0.0
  }

  function StampFlows(comps: seq<Component>, nodes: map<Pin, nat>, x: seq<real>, k: nat): real
  {
    if |comps| == 0 then 0.0 else StampFlow(comps[0], nodes, x, k) + StampFlows(comps[1..], nodes, x, k)
  }

  lemma {:induction false} StampComponentsDot(m: Matrix, n: nat, nv: nat, nodes: map<Pin, nat>, comps: seq<Component>, x: seq<real>, a: nat)
    requires IsSquare(m, n) && nv <= n && NodesBelow(nodes, nv) && a < nv && |x| == n
    ensures RowDot(StampComponents(m, n, nv, nodes, comps), n, a, x) == RowDot(m, n, a, x) + StampFlows(comps, nodes, x, a + 1)
    decreases |comps|
  {
    if |comps| > 0 {
      var m' := StampComponent(m, n, nv, nodes, comps[0]);
      StampComponentDot(m, n, nv, nodes, comps[0], x, a);
      StampComponentsDot(m', n, nv, nodes, comps[1..], x, a);
      assert StampComponents(m, n, nv, nodes, comps) == StampComponents(m', n, nv, nodes, comps[1..]);
      assert StampFlows(comps, nodes, x, a + 1) == StampFlow(comps[0], nodes, x, a + 1) + StampFlows(comps[1..], nodes, x, a + 1);
    }
  }

  lemma {:induction false} StampComponentDot(m: Matrix, n: nat, nv: nat, nodes: map<Pin, nat>, c: Component, x: seq<real>, a: nat)
    requires IsSquare(m, n) && nv <= n && NodesBelow(nodes, nv) && a < nv && |x| == n
    ensures RowDot(StampComponent(m, n, nv, nodes, c), n, a, x) == RowDot(m, n, a, x) + StampFlow(c, nodes, x, a + 1)
  {
    var p0 := Pin(c.id, 0);
    var p1 := Pin(c.id, 1);
    var r := Resistance(c);
    if !(c.kind == VOLTMETER || c.kind == BATTERY) && p0 in nodes && p1 in nodes && r.Some? {
      var g := 1.0 / r.value;
      assert StampComponent(m, n, nv, nodes, c) == AddConductance(m, n, nv, nodes[p0], nodes[p1], g);
      assert StampFlow(c, nodes, x, a + 1) == Outflow(nodes[p0], nodes[p1], a + 1, g * Potential(x, nodes[p0]) - g * Potential(x, nodes[p1]));
      AddConductanceDot(m, n, nv, nodes[p0], nodes[p1], g, x, a);
    }
  }

  lemma {:induction false} StampBatteryUnstamped(m: Matrix, rhs: seq<real>, n: nat, nv: nat, nodes: map<Pin, nat>, c: Component, idx: nat)
    requires IsSquare(m, n) && |rhs| == n && NodesBelow(nodes, nv) && nv + idx < n
    requires Unstamped(m, n, nv, idx)
    ensures Unstamped(StampBattery(m, rhs, n, nv, nodes, c, idx).0, n, nv, idx + 1)
  {
  }

  /** A battery's column adds, to a node row, its coefficient there times
      the battery's current. */
  lemma {:induction false} StampBatteryNodeDot(m: Matrix, rhs: seq<real>, n: nat, nv: nat, nodes: map<Pin, nat>, c: Component, idx: nat, x: seq<real>, a: nat)
    requires IsSquare(m, n) && |rhs| == n && NodesBelow(nodes, nv) && nv + idx < n && a < nv && |x| == n
    requires m[a][nv + idx] == 0.0
    ensures RowDot(StampBattery(m, rhs, n, nv, nodes, c, idx).0, n, a, x)
      == RowDot(m, n, a, x) + BattTerm(c, nodes, x, nv + idx, a + 1)
  {
    var row := nv + idx;
    var n1 := NodeOf(nodes, Pin(c.id, 0));
    var n2 := NodeOf(nodes, Pin(c.id, 1));
    var m1 := if n1.Some? && n1.value > 0 then SetAt(m, n, row, n1.value - 1, 1.0) else m;
    var m2 := if n2.Some? && n2.value > 0 then SetAt(m1, n, row, n2.value - 1, -1.0) else m1;
    var m3 := if n1.Some? && n1.value > 0 then SetAt(m2, n, n1.value - 1, row, 1.0) else m2;
    if n1.Some? && n1.value > 0 { SetAtDot(m, n, row, n1.value - 1, 1.0, x, a); }
    if n2.Some? && n2.value > 0 { SetAtDot(m1, n, row, n2.value - 1, -1.0, x, a); }
    assert RowDot(m2, n, a, x) == RowDot(m, n, a, x);
    assert m2[a][row] == 0.0;
    if n1.Some? && n1.value > 0 { SetAtDot(m2, n, n1.value - 1, row, 1.0, x, a); }
    assert RowDot(m3, n, a, x) == RowDot(m2, n, a, x) + (if n1.Some? && n1.value > 0 && a == n1.value - 1 then x[row] else 0.0);
    assert m3[a][row] == (if n1.Some? && n1.value > 0 && a == n1.value - 1 then 1.0 else 0.0);
    if n2.Some? && n2.value > 0 { SetAtDot(m3, n, n2.value - 1, row, -1.0, x, a); }
  }

  /** The term battery `c`, whose current is unknown `i`, contributes to
      the row of node `k`. */
  function BattTerm(c: Component, nodes: map<Pin, nat>, x: seq<real>, i: nat, k: nat): real
  {
    BattCoef(NodeOf(nodes, Pin(c.id, 0)), NodeOf(nodes, Pin(c.id, 1)), k) * At(x, i)
  }

  /** The battery column terms of node `k`: battery `t` of `bs` contributes
      its coefficient times unknown `nv + idx + t`, its current. */
  function BattFlows(bs: seq<Component>, nodes: map<Pin, nat>, x: seq<real>, nv: nat, idx: nat, k: nat): real
  {
    if |bs| == 0 then 0.0
    else BattTerm(bs[0], nodes, x, nv + idx, k) + BattFlows(bs[1..], nodes, x, nv, idx + 1, k)
  }

  lemma {:induction false} StampBatteriesNodeDot(m: Matrix, rhs: seq<real>, n: nat, nv: nat, nodes: map<Pin, nat>, bs: seq<Component>, idx: nat, x: seq<real>, a: nat)
    requires IsSquare(m, n) && |rhs| == n && NodesBelow(nodes, nv) && nv + idx + |bs| <= n && a < nv && |x| == n
    requires Unstamped(m, n, nv, idx)
    ensures RowDot(StampBatteries(m, rhs, n, nv, nodes, bs, idx).0, n, a, x) == RowDot(m, n, a, x) + BattFlows(bs, nodes, x, nv, idx, a + 1)
    decreases |bs|
  {
    if |bs| > 0 {
      var s := StampBattery(m, rhs, n, nv, nodes, bs[0], idx);
      assert m[a][nv + idx] == 0.0;
      StampBatteryNodeDot(m, rhs, n, nv, nodes, bs[0], idx, x, a);
      StampBatteryUnstamped(m, rhs, n, nv, nodes, bs[0], idx);
      var r := StampBatteries(s.0, s.1, n, nv, nodes, bs[1..], idx + 1);
      StampBatteriesNodeDot(s.0, s.1, n, nv, nodes, bs[1..], idx + 1, x, a);
      assert StampBatteries(m, rhs, n, nv, nodes, bs, idx) == r;
      assert BattFlows(bs, nodes, x, nv, idx, a + 1) == BattTerm(bs[0], nodes, x, nv + idx, a + 1) + BattFlows(bs[1..], nodes, x, nv, idx + 1, a + 1);
    }
  }

  /** What a battery's own row multiplies the potentials by: V(n1) - V(n2),
      except that when both terminals share one node the second write
      leaves -V(n2) alone. */
  function BattRowValue(n1: Option<nat>, n2: Option<nat>, x: seq<real>): real
  {
    (if n1.Some? && n1 != n2 then Potential(x, n1.value) else 0.0) - (if n2.Some? then Potential(x, n2.value) else 0.0)
  }

  lemma {:induction false} StampBatteryOwnRow(m: Matrix, rhs: seq<real>, n: nat, nv: nat, nodes: map<Pin, nat>, c: Component, idx: nat, x: seq<real>)
    requires IsSquare(m, n) && |rhs| == n && NodesBelow(nodes, nv) && nv + idx < n && |x| == n
    requires Unstamped(m, n, nv, idx)
    ensures RowDot(StampBattery(m, rhs, n, nv, nodes, c, idx).0, n, nv + idx, x)
      == BattRowValue(NodeOf(nodes, Pin(c.id, 0)), NodeOf(nodes, Pin(c.id, 1)), x)
  {
    var row := nv + idx;
    var n1 := NodeOf(nodes, Pin(c.id, 0));
    var n2 := NodeOf(nodes, Pin(c.id, 1));
    var m1 := if n1.Some? && n1.value > 0 then SetAt(m, n, row, n1.value - 1, 1.0) else m;
    var m2 := if n2.Some? && n2.value > 0 then SetAt(m1, n, row, n2.value - 1, -1.0) else m1;
    var m3 := if n1.Some? && n1.value > 0 then SetAt(m2, n, n1.value - 1, row, 1.0) else m2;
    DotRangeZeroRow(m[row], x, 0, n);
    if n1.Some? && n1.value > 0 { SetAtDot(m, n, row, n1.value - 1, 1.0, x, row); }
    assert RowDot(m1, n, row, x) == (if n1.Some? && n1.value > 0 then x[n1.value - 1] else 0.0);
    if n2.Some? && n2.value > 0 {
      SetAtDot(m1, n, row, n2.value - 1, -1.0, x, row);
      assert m1[row][n2.value - 1] == (if n1 == n2 then 1.0 else 0.0);
    }
    assert RowDot(m2, n, row, x) == BattRowValue(n1, n2, x);
    if n1.Some? && n1.value > 0 { SetAtDot(m2, n, n1.value - 1, row, 1.0, x, row); }
    if n2.Some? && n2.value > 0 { SetAtDot(m3, n, n2.value - 1, row, -1.0, x, row); }
  }

  /** The battery loop from index `idx` on leaves the node block and the
      rows and columns of earlier batteries alone. */
  lemma {:induction false} StampBatteriesFrame(m: Matrix, rhs: seq<real>, n: nat, nv: nat, nodes: map<Pin, nat>, bs: seq<Component>, idx: nat)
    requires IsSquare(m, n) && |rhs| == n && NodesBelow(nodes, nv) && nv + idx + |bs| <= n
    ensures var r := StampBatteries(m, rhs, n, nv, nodes, bs, idx).0;
      forall a, b :: 0 <= a < n && 0 <= b < n && ((a < nv && b < nv) || nv <= a < nv + idx || nv <= b < nv + idx) ==> r[a][b] == m[a][b]
    decreases |bs|
  {
    if |bs| > 0 {
      var s := StampBattery(m, rhs, n, nv, nodes, bs[0], idx);
      StampBatteriesFrame(s.0, s.1, n, nv, nodes, bs[1..], idx + 1);
    }
  }

  lemma {:induction false} StampBatteriesOwnRow(m: Matrix, rhs: seq<real>, n: nat, nv: nat, nodes: map<Pin, nat>, bs: seq<Component>, idx: nat, x: seq<real>, t: nat)
    requires IsSquare(m, n) && |rhs| == n && NodesBelow(nodes, nv) && nv + idx + |bs| <= n && |x| == n && t < |bs|
    requires Unstamped(m, n, nv, idx)
    ensures RowDot(StampBatteries(m, rhs, n, nv, nodes, bs, idx).0, n, nv + idx + t, x)
      == BattRowValue(NodeOf(nodes, Pin(bs[t].id, 0)), NodeOf(nodes, Pin(bs[t].id, 1)), x)
    decreases |bs|
  {
    var s := StampBattery(m, rhs, n, nv, nodes, bs[0], idx);
    var r := StampBatteries(s.0, s.1, n, nv, nodes, bs[1..], idx + 1);
    assert StampBatteries(m, rhs, n, nv, nodes, bs, idx).0 == r.0;
    StampBatteryUnstamped(m, rhs, n, nv, nodes, bs[0], idx);
    if t == 0 {
      StampBatteriesFirstRow(m, rhs, n, nv, nodes, bs, idx, x);
    } else {
      StampBatteriesOwnRow(s.0, s.1, n, nv, nodes, bs[1..], idx + 1, x, t - 1);
      assert bs[1..][t - 1] == bs[t] && nv + (idx + 1) + (t - 1) == nv + idx + t;
    }
  }

  /** The first battery's row survives the stamps of the later batteries. */
  lemma {:induction false} StampBatteriesFirstRow(m: Matrix, rhs: seq<real>, n: nat, nv: nat, nodes: map<Pin, nat>, bs: seq<Component>, idx: nat, x: seq<real>)
    requires IsSquare(m, n) && |rhs| == n && NodesBelow(nodes, nv) && nv + idx + |bs| <= n && |x| == n && 0 < |bs|
    requires Unstamped(m, n, nv, idx)
    ensures RowDot(StampBatteries(m, rhs, n, nv, nodes, bs, idx).0, n, nv + idx, x)
      == BattRowValue(NodeOf(nodes, Pin(bs[0].id, 0)), NodeOf(nodes, Pin(bs[0].id, 1)), x)
  {
    var s := StampBattery(m, rhs, n, nv, nodes, bs[0], idx);
    var r := StampBatteries(s.0, s.1, n, nv, nodes, bs[1..], idx + 1);
    assert StampBatteries(m, rhs, n, nv, nodes, bs, idx).0 == r.0;
    StampBatteryUnstamped(m, rhs, n, nv, nodes, bs[0], idx);
    StampBatteriesFrame(s.0, s.1, n, nv, nodes, bs[1..], idx + 1);
    StampBatteryOwnRow(m, rhs, n, nv, nodes, bs[0], idx, x);
    DotRangeSameRow(r.0[nv + idx], s.0[nv + idx], x, 0, n);
  }

  /** Node row `a` of the assembled system reads: the currents all branches
      send out of node `a + 1` plus the battery currents entering there. */
  lemma {:induction false} NodeRowEquation(comps: seq<Component>, nodes: map<Pin, nat>, nv: nat, x: seq<real>, a: nat)
    requires NodesBelow(nodes, nv) && a < nv && |x| == nv + |Batteries(comps)|
    ensures RowDot(Assemble(comps, nodes, nv).0, nv + |Batteries(comps)|, a, x)
      == StampFlows(comps, nodes, x, a + 1) + BattFlows(Batteries(comps), nodes, x, nv, 0, a + 1)
  {
    var bs := Batteries(comps);
    var n := nv + |bs|;
    var z := ZeroMatrix(n);
    var g := StampComponents(z, n, nv, nodes, comps);
    DotRangeZeroRow(z[a], x, 0, n);
    StampComponentsDot(z, n, nv, nodes, comps, x, a);
    StampBatteriesNodeDot(g, Zeros(n), n, nv, nodes, bs, 0, x, a);
  }

  /** Battery row `nv + t` of the assembled system reads V(n1) - V(n2) for
      battery `t` (with the shared-node exception of `BattRowValue`). */
  lemma {:induction false} BatteryRowEquation(comps: seq<Component>, nodes: map<Pin, nat>, nv: nat, x: seq<real>, t: nat)
    requires NodesBelow(nodes, nv) && t < |Batteries(comps)| && |x| == nv + |Batteries(comps)|
    ensures var b := Batteries(comps)[t];
      RowDot(Assemble(comps, nodes, nv).0, nv + |Batteries(comps)|, nv + t, x)
        == BattRowValue(NodeOf(nodes, Pin(b.id, 0)), NodeOf(nodes, Pin(b.id, 1)), x)
  {
    var bs := Batteries(comps);
    var n := nv + |bs|;
    var g := StampComponents(ZeroMatrix(n), n, nv, nodes, comps);
    ConductancesUnstamped(comps, nodes, nv);
    var r := StampBatteries(g, Zeros(n), n, nv, nodes, bs, 0);
    assert Assemble(comps, nodes, nv) == r;
    StampedBatteryRow(g, n, nv, nodes, bs, x, t);
  }

  /** Over conductances that leave the battery block zero, battery `t`'s
      row of the stamped matrix reads its row value. */
  lemma {:induction false} StampedBatteryRow(g: Matrix, n: nat, nv: nat, nodes: map<Pin, nat>, bs: seq<Component>, x: seq<real>, t: nat)
    requires IsSquare(g, n) && n == nv + |bs| && NodesBelow(nodes, nv) && t < |bs| && |x| == n
    requires Unstamped(g, n, nv, 0)
    ensures RowDot(StampBatteries(g, Zeros(n), n, nv, nodes, bs, 0).0, n, nv + t, x)
      == BattRowValue(NodeOf(nodes, Pin(bs[t].id, 0)), NodeOf(nodes, Pin(bs[t].id, 1)), x)
  {
    StampBatteriesOwnRow(g, Zeros(n), n, nv, nodes, bs, 0, x, t);
    assert nv + 0 + t == nv + t;
  }

  /** Before the battery loop, every battery row and column is zero. */
  lemma {:induction false} ConductancesUnstamped(comps: seq<Component>, nodes: map<Pin, nat>, nv: nat)
    requires NodesBelow(nodes, nv)
    ensures var n := nv + |Batteries(comps)|;
      Unstamped(StampComponents(ZeroMatrix(n), n, nv, nodes, comps), n, nv, 0)
  {
    var n := nv + |Batteries(comps)|;
    var z := ZeroMatrix(n);
    var g := StampComponents(z, n, nv, nodes, comps);
    forall a, b | 0 <= a < n && 0 <= b < n && (a >= nv || b >= nv) ensures g[a][b] == 0.0 {
      assert g[a][b] == z[a][b];
    }
  }

  /** A solution satisfies each row of its system. */
  lemma {:induction false} SolvedRow(m: Matrix, n: nat, x: seq<real>, b: seq<real>, i: nat)
    requires IsSquare(m, n) && |x| == n && |b| == n && Solves(m, n, x, b) && i < n
    ensures RowDot(m, n, i, x) == b[i]
  {
  }

  /** With terminals on different nodes, a battery row reads the plain
      potential difference. */
  lemma {:induction false} BattRowValueApart(n1: nat, n2: nat, x: seq<real>)
    requires n1 != n2
    ensures BattRowValue(Some(n1), Some(n2), x) == Potential(x, n1) - Potential(x, n2)
  {
  }

  /** In a solution, row `a` of the nodal part: the conductance flows and
      battery currents out of node `a + 1` sum to zero. */
  lemma {:induction false} NodeRowSolved(comps: seq<Component>, nodes: map<Pin, nat>, nv: nat, x: seq<real>, a: nat)
    requires NodesBelow(nodes, nv) && a < nv && |x| == nv + |Batteries(comps)|
    requires Solves(Assemble(comps, nodes, nv).0, nv + |Batteries(comps)|, x, Assemble(comps, nodes, nv).1)
    ensures StampFlows(comps, nodes, x, a + 1) + BattFlows(Batteries(comps), nodes, x, nv, 0, a + 1) == 0.0
  {
    var sys := Assemble(comps, nodes, nv);
    NodeRowEquation(comps, nodes, nv, x, a);
    SolvedRow(sys.0, nv + |Batteries(comps)|, x, sys.1, a);
  }

  /** In a solution, battery `t`'s row: the battery row value equals its
      voltage. */
  lemma {:induction false} BatteryRowSolved(comps: seq<Component>, nodes: map<Pin, nat>, nv: nat, x: seq<real>, t: nat)
    requires NodesBelow(nodes, nv) && t < |Batteries(comps)| && |x| == nv + |Batteries(comps)|
    requires Solves(Assemble(comps, nodes, nv).0, nv + |Batteries(comps)|, x, Assemble(comps, nodes, nv).1)
    ensures var b := Batteries(comps)[t];
      BattRowValue(NodeOf(nodes, Pin(b.id, 0)), NodeOf(nodes, Pin(b.id, 1)), x) == b.value
  {
    BatteryRowEquation(comps, nodes, nv, x, t);
    BatteryRowValueSolved(comps, nodes, nv, x, t);
  }

  lemma {:induction false} BatteryRowValueSolved(comps: seq<Component>, nodes: map<Pin, nat>, nv: nat, x: seq<real>, t: nat)
    requires NodesBelow(nodes, nv) && t < |Batteries(comps)| && |x| == nv + |Batteries(comps)|
    requires Solves(Assemble(comps, nodes, nv).0, nv + |Batteries(comps)|, x, Assemble(comps, nodes, nv).1)
    ensures RowDot(Assemble(comps, nodes, nv).0, nv + |Batteries(comps)|, nv + t, x) == Batteries(comps)[t].value
  {
    var sys := Assemble(comps, nodes, nv);
    SolvedRow(sys.0, nv + |Batteries(comps)|, x, sys.1, nv + t);
  }
}
