/** The structural classifier: groups pins into electrical nodes with the
    union-find, counts how many component terminals meet at each node, and
    names the circuit EMPTY, OPEN, SHORT, SERIES or PARALLEL. */
module Topology {
  import opened Circuit
  import opened UnionFind

  datatype Kind = OPEN | SERIES | PARALLEL | SHORT | COMPLEX | EMPTY

  datatype TopologyResult = TopologyResult(kind: Kind, loops: nat, branches: nat, feedback: string, isValid: bool)

  /** The roots of every terminal, in pin-key order (pin 0 then pin 1 of
      each component), each found with `find` on the forest left by the
      previous lookups. */
  function TerminalRoots(comps: seq<Component>, parent: map<Pin, Pin>, ghost h: map<Pin, nat>): (r: seq<Pin>)
    requires Forest(parent, h) && Closed(parent)
    ensures |r| == 2 * |comps|
    ensures forall k :: 0 <= k < |r| ==> r[k] == Root(parent, h, PinKeys(comps)[k])
  {
    if |comps| == 0 then []
    else
      var f0 := Find(parent, h, Pin(comps[0].id, 0));
      var f1 := Find(f0.1, h, Pin(comps[0].id, 1));
      var rest := TerminalRoots(comps[1..], f1.1, h);
      TerminalRootsStep(comps, parent, f0.1, f1.1, h, f0.0, f1.0, rest);
      [f0.0, f1.0] + rest
  }

  lemma {:induction false} TerminalRootsStep(comps: seq<Component>, parent: map<Pin, Pin>, a: map<Pin, Pin>, b: map<Pin, Pin>,
                          h: map<Pin, nat>, r0: Pin, r1: Pin, rest: seq<Pin>)
    requires Forest(parent, h) && Forest(a, h) && Forest(b, h) && |comps| > 0
    requires SameRoots(a, h, parent, h) && SameRoots(b, h, a, h)
    requires r0 == Root(parent, h, Pin(comps[0].id, 0)) && r1 == Root(a, h, Pin(comps[0].id, 1))
    requires |rest| == 2 * (|comps| - 1)
    requires forall k :: 0 <= k < |rest| ==> rest[k] == Root(b, h, PinKeys(comps[1..])[k])
    ensures forall k :: 0 <= k < 2 * |comps| ==> ([r0, r1] + rest)[k] == Root(parent, h, PinKeys(comps)[k])
  {
    var keys := PinKeys(comps);
    SameRootsTrans(b, a, parent, h);
    var r := [r0, r1] + rest;
    forall k | 0 <= k < 2 * |comps|
      ensures r[k] == Root(parent, h, keys[k])
    {
      if k == 1 {
        SameRootsAt(a, h, parent, h, keys[k]);
      } else if k >= 2 {
        TailKey(comps, k);
        assert r[k] == rest[k - 2];
        SameRootsAt(b, h, parent, h, keys[k]);
      }
    }
  }

  lemma {:induction false} TailKey(comps: seq<Component>, k: int)
    requires |comps| > 0 && 2 <= k < 2 * |comps|
    ensures PinKeys(comps)[k] == PinKeys(comps[1..])[k - 2]
  {
    assert PinKeys(comps) == [Pin(comps[0].id, 0), Pin(comps[0].id, 1)] + PinKeys(comps[1..]);
  }

  lemma {:induction false} SameRootsAt(a: map<Pin, Pin>, ha: map<Pin, nat>, b: map<Pin, Pin>, hb: map<Pin, nat>, q: Pin)
    requires Forest(a, ha) && Forest(b, hb) && SameRoots(a, ha, b, hb)
    ensures Root(a, ha, q) == Root(b, hb, q)
  {
  }

  lemma {:induction false} SameRootsTrans(a: map<Pin, Pin>, b: map<Pin, Pin>, c: map<Pin, Pin>, h: map<Pin, nat>)
    requires Forest(a, h) && Forest(b, h) && Forest(c, h) && SameRoots(a, h, b, h) && SameRoots(b, h, c, h)
    ensures SameRoots(a, h, c, h)
  {
    forall q ensures Root(a, h, q) == Root(c, h, q) {
      SameRootsAt(a, h, b, h, q);
      SameRootsAt(b, h, c, h, q);
    }
  }

  /** Two terminals share an electrical node exactly when a chain of wires
      joins them. */
  lemma {:induction false} TerminalRootsPartition(comps: seq<Component>, wires: seq<Wire>, a: nat, b: nat)
    requires a < 2 * |comps| && b < 2 * |comps|
    ensures var roots := TerminalRoots(comps, UnionAll(wires), UnionAllHeight(wires));
      roots[a] == roots[b] <==> Linked(wires, PinKeys(comps)[a], PinKeys(comps)[b])
  {
    UnionAllPartition(wires, PinKeys(comps)[a], PinKeys(comps)[b]);
  }

  /** How many times `x` occurs in `s`. */
  function Occurrences(s: seq<Pin>, x: Pin): (n: nat)
    ensures n <= |s|
    ensures n > 0 <==> x in s
  {
    if |s| == 0 then 0
    else
      var init := s[..|s| - 1];
      assert x in s <==> x in init || x == s[|s| - 1] by {
        assert s == init + [s[|s| - 1]];
      }
      Occurrences(init, x) + (if s[|s| - 1] == x then 1 else 0)
  }

  /** A degree tally: root pins with the number of terminals seen at each.
      It models a JavaScript `Map` in insertion order, so keys are distinct. */
  type Tally = seq<(Pin, nat)>

  predicate DistinctKeys(t: Tally)
  {
    forall a, b :: 0 <= a < b < |t| ==> t[a].0 != t[b].0
  }

  predicate HasKey(t: Tally, x: Pin)
  {
    exists k :: 0 <= k < |t| && t[k].0 == x
  }

  /** One `set(root, (get(root) || 0) + 1)` on the tally: an existing entry
      is incremented in place, a new root is appended with count 1. */
  function Bump(t: Tally, x: Pin): (r: Tally)
    ensures |r| == |t| || r == t + [(x, 1)]
  {
    if |t| == 0 then [(x, 1)]
    else if t[0].0 == x then [(x, t[0].1 + 1)] + t[1..]
    else [t[0]] + Bump(t[1..], x)
  }

  lemma {:induction false} BumpSpec(t: Tally, x: Pin)
    requires DistinctKeys(t)
    ensures DistinctKeys(Bump(t, x))
    ensures forall y :: HasKey(Bump(t, x), y) <==> HasKey(t, y) || y == x
    ensures HasKey(t, x) ==> |Bump(t, x)| == |t| && forall k :: 0 <= k < |t| ==> Bump(t, x)[k] == (if t[k].0 == x then (x, t[k].1 + 1) else t[k])
    ensures !HasKey(t, x) ==> Bump(t, x) == t + [(x, 1)]
  {
    BumpKeys(t, x);
    BumpDistinct(t, x);
    if HasKey(t, x) {
      BumpInPlace(t, x);
    } else {
      BumpAppend(t, x);
    }
  }

  lemma {:induction false} HasKeyTail(t: Tally, y: Pin)
    requires |t| > 0
    ensures HasKey(t, y) <==> t[0].0 == y || HasKey(t[1..], y)
  {
    if HasKey(t, y) && t[0].0 != y {
      var k :| 0 <= k < |t| && t[k].0 == y;
      assert t[1..][k - 1].0 == y;
    }
    if HasKey(t[1..], y) {
      var k :| 0 <= k < |t[1..]| && t[1..][k].0 == y;
      assert t[k + 1].0 == y;
    }
  }

  lemma {:induction false} BumpKeys(t: Tally, x: Pin)
    ensures forall y :: HasKey(Bump(t, x), y) <==> HasKey(t, y) || y == x
  {
    var r := Bump(t, x);
    if |t| == 0 {
      assert r[0].0 == x;
    } else {
      forall y ensures HasKey(r, y) <==> HasKey(t, y) || y == x {
        HasKeyTail(t, y);
        HasKeyTail(r, y);
        if t[0].0 == x {
          assert r[1..] == t[1..];
        } else {
          BumpKeys(t[1..], x);
          assert r[1..] == Bump(t[1..], x);
        }
      }
    }
  }

  lemma {:induction false} BumpDistinct(t: Tally, x: Pin)
    requires DistinctKeys(t)
    ensures DistinctKeys(Bump(t, x))
  {
    var r := Bump(t, x);
    if |t| > 0 && t[0].0 != x {
      var rest := Bump(t[1..], x);
      BumpDistinct(t[1..], x);
      BumpKeys(t[1..], x);
      assert r[1..] == rest;
      forall k | 1 <= k < |r| ensures r[0].0 != r[k].0 {
        assert HasKey(rest, r[k].0) by { assert rest[k - 1] == r[k]; }
        if r[k].0 != x {
          var m :| 0 <= m < |t[1..]| && t[1..][m].0 == r[k].0;
          assert t[m + 1].0 == r[k].0;
        }
      }
    }
  }

  lemma {:induction false} BumpInPlace(t: Tally, x: Pin)
    requires DistinctKeys(t) && HasKey(t, x)
    ensures |Bump(t, x)| == |t|
    ensures forall k :: 0 <= k < |t| ==> Bump(t, x)[k] == (if t[k].0 == x then (x, t[k].1 + 1) else t[k])
  {
    var r := Bump(t, x);
    HasKeyTail(t, x);
    if t[0].0 != x {
      BumpInPlace(t[1..], x);
      assert r[1..] == Bump(t[1..], x);
    }
  }

  lemma {:induction false} BumpAppend(t: Tally, x: Pin)
    requires !HasKey(t, x)
    ensures Bump(t, x) == t + [(x, 1)]
  {
    if |t| > 0 {
      HasKeyTail(t, x);
      BumpAppend(t[1..], x);
    }
  }

  /** The tally of a list of roots, built left to right. */
  function TallyOf(roots: seq<Pin>): (t: Tally)
    ensures DistinctKeys(t)
  {
    if |roots| == 0 then []
    else
      BumpSpec(TallyOf(roots[..|roots| - 1]), roots[|roots| - 1]);
      Bump(TallyOf(roots[..|roots| - 1]), roots[|roots| - 1])
  }

  /** The tally has one entry per distinct root, counting its occurrences. */
  lemma {:induction false} TallyCounts(roots: seq<Pin>)
    ensures forall y :: HasKey(TallyOf(roots), y) <==> y in roots
    ensures forall k :: 0 <= k < |TallyOf(roots)| ==> TallyOf(roots)[k].1 == Occurrences(roots, TallyOf(roots)[k].0)
  {
    if |roots| > 0 {
      var init := roots[..|roots| - 1];
      var x := roots[|roots| - 1];
      TallyCounts(init);
      assert roots == init + [x];
      var t := TallyOf(init);
      var r := TallyOf(roots);
      assert r == Bump(t, x);
      BumpSpec(t, x);
      forall k | 0 <= k < |r|
        ensures r[k].1 == Occurrences(roots, r[k].0)
      {
        if k < |t| {
          assert Occurrences(roots, t[k].0) == Occurrences(init, t[k].0) + (if x == t[k].0 then 1 else 0);
        } else {
          assert r[k] == (x, 1);
          assert !HasKey(t, x);
        }
      }
    }
  }

  /** Sum of the counts of a tally. */
  function Total(t: Tally): nat
  {
    if |t| == 0 then 0 else Total(t[..|t| - 1]) + t[|t| - 1].1
  }

  lemma {:induction false} TotalAppend(t: Tally, e: (Pin, nat))
    ensures Total(t + [e]) == Total(t) + e.1
  {
    assert (t + [e])[..|t|] == t;
  }

  lemma {:induction false} TotalBumpInPlace(t: Tally, r: Tally, k0: nat)
    requires |r| == |t| && k0 < |t|
    requires forall k :: 0 <= k < |t| ==> r[k] == (if k == k0 then (t[k].0, t[k].1 + 1) else t[k])
    ensures Total(r) == Total(t) + 1
    decreases |t|
  {
    var n := |t| - 1;
    if k0 < n {
      TotalBumpInPlace(t[..n], r[..n], k0);
      assert r[n] == t[n];
    } else {
      assert r[..n] == t[..n];
    }
  }

  /** Every component adds exactly two terminals to the tally: the degrees
      sum to twice the number of components. */
  lemma {:induction false} TallyTotal(roots: seq<Pin>)
    ensures Total(TallyOf(roots)) == |roots|
  {
    if |roots| > 0 {
      var init := roots[..|roots| - 1];
      var x := roots[|roots| - 1];
      TallyTotal(init);
      var t := TallyOf(init);
      BumpSpec(t, x);
      assert TallyOf(roots) == Bump(t, x);
      if HasKey(t, x) {
        var k0 :| 0 <= k0 < |t| && t[k0].0 == x;
        TotalBumpInPlace(t, Bump(t, x), k0);
      } else {
        TotalAppend(t, (x, 1));
      }
    }
  }

  /** Number of tally entries whose count exceeds 2: the junctions. */
  function Junctions(t: Tally): (n: nat)
    ensures n <= |t|
    ensures n == 0 <==> forall k :: 0 <= k < |t| ==> t[k].1 <= 2
  {
    if |t| == 0 then 0
    else
      var init := t[..|t| - 1];
      var n := Junctions(init) + (if t[|t| - 1].1 > 2 then 1 else 0);
      assert forall k :: 0 <= k < |init| ==> init[k] == t[k];
      n
  }

  /** Every node of the tally carries at least two terminals, and there is
      at least one node: the closed-loop test of a junction-free circuit. */
  predicate Closes(t: Tally)
  {
    (forall k :: 0 <= k < |t| ==> t[k].1 >= 2) && |t| > 0
  }

  predicate IsLoad(t: ComponentType)
  {
    t == BULB || t == RESISTOR || t == RHEOSTAT
  }

  predicate HasBattery(comps: seq<Component>)
  {
    exists i :: 0 <= i < |comps| && comps[i].kind == BATTERY
  }

  predicate HasLoad(comps: seq<Component>)
  {
    exists i :: 0 <= i < |comps| && IsLoad(comps[i].kind)
  }

  /** The degree tally of a circuit's electrical nodes. */
  function NodeDegrees(comps: seq<Component>, wires: seq<Wire>): Tally
  {
    TallyOf(TerminalRoots(comps, UnionAll(wires), UnionAllHeight(wires)))
  }

  /** The classification, checked in the source's order: empty canvas, no
      source, no load, then junction-free (series if closed, else open) or
      with junctions (parallel). */
  function AnalyzeTopology(comps: seq<Component>, wires: seq<Wire>): (r: TopologyResult)
    ensures r.kind != COMPLEX
    ensures r.kind == EMPTY <==> |comps| == 0
    ensures r.isValid <==> r.kind == SERIES || r.kind == PARALLEL
    ensures r.kind == PARALLEL ==> r.loops == r.branches && r.loops >= 1
    ensures r.kind == SHORT ==> r.loops == 1 && r.branches == 0
    ensures r.kind in {EMPTY, OPEN} ==> r.loops == 0 && r.branches == 0
    ensures r.kind == SERIES ==> r.loops == 1 && r.branches == 0
  {
    if |comps| == 0 then TopologyResult(EMPTY, 0, 0, "画布为空，请添加元件。", false)
    else
      var t := NodeDegrees(comps, wires);
      var junctions := Junctions(t);
      if !HasBattery(comps) then TopologyResult(OPEN, 0, 0, "缺少电源。", false)
      else if !HasLoad(comps) then TopologyResult(SHORT, 1, 0, "缺少用电器，构成短路！", false)
      else if junctions == 0 then
        if Closes(t) then TopologyResult(SERIES, 1, 0, "这是一个串联电路。", true)
        else TopologyResult(OPEN, 0, 0, "电路未闭合。", false)
      else TopologyResult(PARALLEL, junctions, junctions, "这是一个并联或混联电路。", true)
  }

  /** The verdict follows the decision order: a non-empty circuit without a
      battery is open, one with a battery but no load is a short, and only
      a circuit with both can be series or parallel. */
  lemma {:induction false} DecisionOrder(comps: seq<Component>, wires: seq<Wire>)
    ensures var r := AnalyzeTopology(comps, wires);
      && (|comps| > 0 && !HasBattery(comps) ==> r.kind == OPEN && r.feedback == "缺少电源。")
      && (HasBattery(comps) && !HasLoad(comps) ==> r.kind == SHORT)
      && (r.kind == SERIES || r.kind == PARALLEL ==> HasBattery(comps) && HasLoad(comps))
  {
  }

  /** A series verdict means every electrical node joins exactly two
      terminals, so a series circuit has as many nodes as components. */
  lemma {:induction false} SeriesNodesHaveDegreeTwo(comps: seq<Component>, wires: seq<Wire>)
    requires AnalyzeTopology(comps, wires).kind == SERIES
    ensures forall k :: 0 <= k < |NodeDegrees(comps, wires)| ==> NodeDegrees(comps, wires)[k].1 == 2
    ensures |NodeDegrees(comps, wires)| == |comps|
  {
    var t := NodeDegrees(comps, wires);
    var roots := TerminalRoots(comps, UnionAll(wires), UnionAllHeight(wires));
    assert Junctions(t) == 0 && Closes(t);
    forall k | 0 <= k < |t| ensures t[k].1 == 2 {
      assert t[k].1 <= 2 && t[k].1 >= 2;
    }
    TallyTotal(roots);
    assert Total(t) == 2 * |comps|;
    TotalOfTwos(t);
  }

  lemma {:induction false} TotalOfTwos(t: Tally)
    requires forall k :: 0 <= k < |t| ==> t[k].1 == 2
    ensures Total(t) == 2 * |t|
  {
    if |t| > 0 {
      TotalOfTwos(t[..|t| - 1]);
    }
  }

  /** A parallel verdict counts its loops and branches as the nodes where
      more than two terminals meet. */
  lemma {:induction false} ParallelCountsJunctions(comps: seq<Component>, wires: seq<Wire>)
    requires AnalyzeTopology(comps, wires).kind == PARALLEL
    ensures AnalyzeTopology(comps, wires).loops == Junctions(NodeDegrees(comps, wires))
    ensures exists k :: 0 <= k < |NodeDegrees(comps, wires)| && NodeDegrees(comps, wires)[k].1 > 2
  {
  }

  /** Every terminal is counted at exactly one node: the degrees add up to
      twice the number of components. */
  lemma {:induction false} DegreeSum(comps: seq<Component>, wires: seq<Wire>)
    ensures Total(NodeDegrees(comps, wires)) == 2 * |comps|
  {
    TallyTotal(TerminalRoots(comps, UnionAll(wires), UnionAllHeight(wires)));
  }

  /** With a battery and a load but no junction, the circuit is series
      exactly when no node has fewer than two terminals, and open
      otherwise. */
  lemma {:induction false} JunctionFreeVerdict(comps: seq<Component>, wires: seq<Wire>)
    requires HasBattery(comps) && HasLoad(comps)
    requires forall k :: 0 <= k < |NodeDegrees(comps, wires)| ==> NodeDegrees(comps, wires)[k].1 <= 2
    ensures AnalyzeTopology(comps, wires).kind == SERIES <==>
      forall k :: 0 <= k < |NodeDegrees(comps, wires)| ==> NodeDegrees(comps, wires)[k].1 >= 2
    ensures AnalyzeTopology(comps, wires).kind == OPEN <==>
      exists k :: 0 <= k < |NodeDegrees(comps, wires)| && NodeDegrees(comps, wires)[k].1 < 2
  {
    var t := NodeDegrees(comps, wires);
    DegreeSum(comps, wires);
    assert |t| > 0;
    assert Junctions(t) == 0;
  }

  /** With a battery and a load, a node where more than two terminals meet
      makes the circuit parallel, with one loop and one branch per such
      node. */
  lemma {:induction false} JunctionVerdict(comps: seq<Component>, wires: seq<Wire>, k: nat)
    requires HasBattery(comps) && HasLoad(comps)
    requires k < |NodeDegrees(comps, wires)| && NodeDegrees(comps, wires)[k].1 > 2
    ensures AnalyzeTopology(comps, wires).kind == PARALLEL
    ensures AnalyzeTopology(comps, wires).loops == Junctions(NodeDegrees(comps, wires))
    ensures AnalyzeTopology(comps, wires).branches == Junctions(NodeDegrees(comps, wires)) >= 1
  {
  }

  /** The tally counts, for each electrical node, the terminals a chain of
      wires joins to it: the degree of the node of terminal `a`. */
  lemma {:induction false} DegreeIsLinkedTerminals(comps: seq<Component>, wires: seq<Wire>, k: nat)
    requires k < |NodeDegrees(comps, wires)|
    ensures var roots := TerminalRoots(comps, UnionAll(wires), UnionAllHeight(wires));
      && NodeDegrees(comps, wires)[k].0 in roots
      && NodeDegrees(comps, wires)[k].1 == Occurrences(roots, NodeDegrees(comps, wires)[k].0)
  {
    var roots := TerminalRoots(comps, UnionAll(wires), UnionAllHeight(wires));
    TallyCounts(roots);
    assert HasKey(NodeDegrees(comps, wires), NodeDegrees(comps, wires)[k].0);
  }

  /** Two component lists with the same ids and kinds, in the same order. */
  predicate SameSkeleton(a: seq<Component>, b: seq<Component>)
  {
    |a| == |b| && forall i :: 0 <= i < |a| ==> a[i].id == b[i].id && a[i].kind == b[i].kind
  }

  lemma {:induction false} SkeletonPinKeys(a: seq<Component>, b: seq<Component>)
    requires SameSkeleton(a, b)
    ensures PinKeys(a) == PinKeys(b)
  {
    if |a| > 0 {
      SkeletonPinKeys(a[1..], b[1..]);
    }
  }

  /** The classification reads only ids, kinds and wires: positions,
      rotations, values, labels, switch states and readings never change
      it. */
  lemma {:induction false} TopologyIgnoresValues(a: seq<Component>, b: seq<Component>, wires: seq<Wire>)
    requires SameSkeleton(a, b)
    ensures AnalyzeTopology(a, wires) == AnalyzeTopology(b, wires)
  {
    SkeletonPinKeys(a, b);
    var parent := UnionAll(wires);
    var h := UnionAllHeight(wires);
    assert TerminalRoots(a, parent, h) == TerminalRoots(b, parent, h);
    SkeletonKinds(a, b);
  }

  lemma {:induction false} SkeletonKinds(a: seq<Component>, b: seq<Component>)
    requires SameSkeleton(a, b)
    ensures HasBattery(a) <==> HasBattery(b)
    ensures HasLoad(a) <==> HasLoad(b)
  {
    if HasBattery(a) { var i :| 0 <= i < |a| && a[i].kind == BATTERY; assert b[i].kind == BATTERY; }
    if HasBattery(b) { var i :| 0 <= i < |b| && b[i].kind == BATTERY; assert a[i].kind == BATTERY; }
    if HasLoad(a) { var i :| 0 <= i < |a| && IsLoad(a[i].kind); assert IsLoad(b[i].kind); }
    if HasLoad(b) { var i :| 0 <= i < |b| && IsLoad(b[i].kind); assert IsLoad(a[i].kind); }
  }
}
