/** The solver's first phase: terminals are grouped into electrical nodes
    by breadth-first search over a pin adjacency map, a ground group is
    chosen, and the groups are renumbered so that ground is node 0. */
module NodeGrouping {
  import opened Circuit
  import opened UnionFind

  function Elems(s: seq<Pin>): (e: set<Pin>)
    ensures forall x :: x in e <==> x in s
  {
    set x | x in s
  }

  /** The neighbour list the adjacency map keeps for a terminal: for every
      wire in order, its target when the terminal is its source, then its
      source when the terminal is its target. */
  function Neighbours(wires: seq<Wire>, p: Pin): (ns: seq<Pin>)
    ensures forall q :: q in ns <==> Step(wires, p, q)
    ensures forall q :: q in ns ==> q in Ends(wires)
  {
    if |wires| == 0 then []
    else
      var init := wires[..|wires| - 1];
      var w := wires[|wires| - 1];
      var ns := Neighbours(init, p) + (if w.source == p then [w.target] else []) + (if w.target == p then [w.source] else []);
      assert forall q :: Step(wires, p, q) <==> Step(init, p, q) || (w.source == p && w.target == q) || (w.source == q && w.target == p) by {
        forall q ensures Step(wires, p, q) <==> Step(init, p, q) || (w.source == p && w.target == q) || (w.source == q && w.target == p) {
          if Step(init, p, q) {
            var k :| 0 <= k < |init| && ((init[k].source == p && init[k].target == q) || (init[k].source == q && init[k].target == p));
            assert wires[k] == init[k];
          }
          if Step(wires, p, q) {
            var k :| 0 <= k < |wires| && ((wires[k].source == p && wires[k].target == q) || (wires[k].source == q && wires[k].target == p));
            if k < |init| { assert init[k] == wires[k]; }
          }
        }
      }
      ns
  }

  /** The adjacency list of a pin: terminals of present components have an
      entry, any other pin has none. */
  function Adj(keys: seq<Pin>, wires: seq<Wire>, p: Pin): (ns: seq<Pin>)
    ensures forall q :: q in ns <==> p in keys && Step(wires, p, q)
  {
    if p in keys then Neighbours(wires, p) else []
  }

  /** Every pin the search can reach: the terminals and the wire ends. */
  function Universe(keys: seq<Pin>, wires: seq<Wire>): set<Pin>
  {
    Elems(keys) + Ends(wires)
  }

  /** The neighbour loop of one BFS step: each unvisited neighbour is
      marked visited and queued, in order. */
  function Enqueue(ns: seq<Pin>, visited: set<Pin>, queue: seq<Pin>): (r: (set<Pin>, seq<Pin>))
    ensures r.0 == visited + Elems(ns)
    ensures forall x :: x in r.1 <==> x in queue || (x in ns && x !in visited)
    ensures r.0 == visited ==> r.1 == queue
  {
    if |ns| == 0 then (visited, queue)
    else if ns[0] in visited then Enqueue(ns[1..], visited, queue)
    else Enqueue(ns[1..], visited + {ns[0]}, queue + [ns[0]])
  }

  lemma {:induction false} ShrinkUniverse(u: set<Pin>, v: set<Pin>, v': set<Pin>)
    requires v <= v' <= u
    ensures v != v' ==> |u - v'| < |u - v|
  {
    if v != v' {
      var x :| x in v' && x !in v;
      var d := v' - v;
      assert x in d;
      assert u - v == (u - v') + d;
      assert (u - v') * d == {};
    }
  }

  /** The BFS of one group: pop the queue head, add it to the group, queue
      its unvisited neighbours, until the queue is empty. Returns the final
      visited set and group. */
  function Explore(keys: seq<Pin>, wires: seq<Wire>, queue: seq<Pin>, visited: set<Pin>, group: seq<Pin>): (r: (set<Pin>, seq<Pin>))
    requires Elems(queue) <= visited <= Universe(keys, wires)
    ensures visited <= r.0 <= Universe(keys, wires)
    decreases |Universe(keys, wires) - visited|, |queue|
  {
    if |queue| == 0 then (visited, group)
    else
      var curr := queue[0];
      var e := Enqueue(Adj(keys, wires, curr), visited, queue[1..]);
      ExploreStep(keys, wires, queue, visited, e);
      Explore(keys, wires, e.1, e.0, group + [curr])
  }

  lemma {:induction false} ExploreStep(keys: seq<Pin>, wires: seq<Wire>, queue: seq<Pin>, visited: set<Pin>, e: (set<Pin>, seq<Pin>))
    requires Elems(queue) <= visited <= Universe(keys, wires) && |queue| > 0
    requires e == Enqueue(Adj(keys, wires, queue[0]), visited, queue[1..])
    ensures Elems(e.1) <= e.0 <= Universe(keys, wires)
    ensures |Universe(keys, wires) - e.0| < |Universe(keys, wires) - visited|
         || (e.0 == visited && |e.1| < |queue|)
  {
    var ns := Adj(keys, wires, queue[0]);
    forall x | x in e.1 ensures x in e.0 {
      if x in queue[1..] { assert x in queue; }
    }
    ShrinkUniverse(Universe(keys, wires), visited, e.0);
  }

  /** The group found by one search holds the queued pins and newly
      discovered ones only, and every pin it marks visited joins it. */
  lemma {:induction false} ExploreFacts(keys: seq<Pin>, wires: seq<Wire>, queue: seq<Pin>, visited: set<Pin>, group: seq<Pin>)
    requires Elems(queue) <= visited <= Universe(keys, wires) && Elems(group) <= visited
    ensures var r := Explore(keys, wires, queue, visited, group);
      && (forall x :: x in r.1 ==> x in group || x in queue || x !in visited)
      && (forall x :: x in group || x in queue ==> x in r.1)
      && r.0 == visited + Elems(r.1)
    decreases |Universe(keys, wires) - visited|, |queue|
  {
    if |queue| > 0 {
      var curr := queue[0];
      var e := Enqueue(Adj(keys, wires, curr), visited, queue[1..]);
      ExploreStep(keys, wires, queue, visited, e);
      ExploreFacts(keys, wires, e.1, e.0, group + [curr]);
      var r := Explore(keys, wires, e.1, e.0, group + [curr]);
      assert Explore(keys, wires, queue, visited, group) == r;
      forall x | x in queue ensures x in r.1 {
        if x != curr { assert x in queue[1..]; }
      }
      forall x | x in r.1 ensures x in group || x in queue || x !in visited {
        if x in e.1 && x !in queue[1..] {
          assert x !in visited;
        }
        if x in queue[1..] { assert x in queue; }
      }
    }
  }

  /** The outer loop: every terminal not yet visited starts a new group. */
  function GroupAll(keys: seq<Pin>, wires: seq<Wire>, i: nat, visited: set<Pin>, groups: seq<seq<Pin>>): (r: seq<seq<Pin>>)
    requires i <= |keys| && visited <= Universe(keys, wires)
    ensures |groups| <= |r| <= |groups| + |keys| - i
    ensures r[..|groups|] == groups
    decreases |keys| - i
  {
    if i == |keys| then groups
    else if keys[i] in visited then GroupAll(keys, wires, i + 1, visited, groups)
    else
      var e := Explore(keys, wires, [keys[i]], visited + {keys[i]}, []);
      var r := GroupAll(keys, wires, i + 1, e.0, groups + [e.1]);
      assert r[..|groups|] == (groups + [e.1])[..|groups|];
      r
  }

  /** The groups of a circuit's terminals, in discovery order. */
  function Groups(comps: seq<Component>, wires: seq<Wire>): (r: seq<seq<Pin>>)
    ensures |r| <= 2 * |comps|
    ensures |r| == 0 <==> |comps| == 0
  {
    var keys := PinKeys(comps);
    GroupAll(keys, wires, 0, {}, [])
  }

  // ---------------------------------------------------------------------
  // What one search finds

  lemma {:induction false} LinkedStep(wires: seq<Wire>, a: Pin, b: Pin, c: Pin)
    requires Linked(wires, a, b) && Step(wires, b, c)
    ensures Linked(wires, a, c)
  {
    assert IsPath(wires, [b, c]);
    LinkedTrans(wires, a, b, c);
  }

  lemma {:induction false} StepSym(wires: seq<Wire>, a: Pin, b: Pin)
    requires Step(wires, a, b)
    ensures Step(wires, b, a)
  {
    var k :| 0 <= k < |wires| && ((wires[k].source == a && wires[k].target == b) || (wires[k].source == b && wires[k].target == a));
  }

  /** Every pin a search adds is joined by wires to the pin it started from. */
  lemma {:induction false} ExploreSound(keys: seq<Pin>, wires: seq<Wire>, queue: seq<Pin>, visited: set<Pin>, group: seq<Pin>, s: Pin)
    requires Elems(queue) <= visited <= Universe(keys, wires)
    requires forall x :: x in group ==> Linked(wires, s, x)
    requires forall x :: x in queue ==> Linked(wires, s, x)
    ensures forall x :: x in Explore(keys, wires, queue, visited, group).1 ==> Linked(wires, s, x)
    decreases |Universe(keys, wires) - visited|, |queue|
  {
    if |queue| > 0 {
      var curr := queue[0];
      var ns := Adj(keys, wires, curr);
      var e := Enqueue(ns, visited, queue[1..]);
      ExploreStep(keys, wires, queue, visited, e);
      forall x | x in e.1 ensures Linked(wires, s, x) {
        if x in ns {
          LinkedStep(wires, s, curr, x);
        } else {
          assert x in queue;
        }
      }
      ExploreSound(keys, wires, e.1, e.0, group + [curr], s);
      assert Explore(keys, wires, queue, visited, group) == Explore(keys, wires, e.1, e.0, group + [curr]);
    }
  }

  /** When a search ends, every neighbour of every pin in its group has
      been visited. */
  lemma {:induction false} ExploreClosed(keys: seq<Pin>, wires: seq<Wire>, queue: seq<Pin>, visited: set<Pin>, group: seq<Pin>)
    requires Elems(queue) <= visited <= Universe(keys, wires)
    requires forall x :: x in group ==> Elems(Adj(keys, wires, x)) <= visited
    ensures var r := Explore(keys, wires, queue, visited, group);
      forall x :: x in r.1 ==> Elems(Adj(keys, wires, x)) <= r.0
    decreases |Universe(keys, wires) - visited|, |queue|
  {
    if |queue| > 0 {
      var curr := queue[0];
      var e := Enqueue(Adj(keys, wires, curr), visited, queue[1..]);
      ExploreStep(keys, wires, queue, visited, e);
      ExploreClosed(keys, wires, e.1, e.0, group + [curr]);
      assert Explore(keys, wires, queue, visited, group) == Explore(keys, wires, e.1, e.0, group + [curr]);
    }
  }

  // ---------------------------------------------------------------------
  // What the outer loop builds

  function Flat(groups: seq<seq<Pin>>): (f: set<Pin>)
    ensures forall x :: x in f <==> exists j :: 0 <= j < |groups| && x in groups[j]
  {
    if |groups| == 0 then {}
    else
      var init := groups[..|groups| - 1];
      var f := Flat(init) + Elems(groups[|groups| - 1]);
      assert forall x :: x in f <==> exists j :: 0 <= j < |groups| && x in groups[j] by {
        forall x ensures x in f <==> exists j :: 0 <= j < |groups| && x in groups[j] {
          if x in Flat(init) {
            var j :| 0 <= j < |init| && x in init[j];
            assert groups[j] == init[j];
          }
          if exists j :: 0 <= j < |groups| && x in groups[j] {
            var j :| 0 <= j < |groups| && x in groups[j];
            if j < |init| { assert init[j] == groups[j]; }
          }
        }
      }
      f
  }

  /** No pin lies in two groups. */
  ghost predicate Disjoint(groups: seq<seq<Pin>>)
  {
    forall j1, j2, x :: 0 <= j1 < j2 < |groups| && x in groups[j1] ==> x !in groups[j2]
  }

  /** A wire from a terminal in a group to another terminal stays in the group. */
  ghost predicate StepClosed(keys: seq<Pin>, wires: seq<Wire>, groups: seq<seq<Pin>>)
  {
    forall j, x, y :: 0 <= j < |groups| && x in groups[j] && y in keys && y in Adj(keys, wires, x) ==> y in groups[j]
  }

  /** Any two pins of a group are joined by a chain of wires. */
  ghost predicate Connected(wires: seq<Wire>, groups: seq<seq<Pin>>)
  {
    forall j, x, y :: 0 <= j < |groups| && x in groups[j] && y in groups[j] ==> Linked(wires, x, y)
  }

  ghost predicate NonEmpty(groups: seq<seq<Pin>>)
  {
    forall j :: 0 <= j < |groups| ==> |groups[j]| > 0
  }

  ghost predicate GroupsInv(keys: seq<Pin>, wires: seq<Wire>, visited: set<Pin>, groups: seq<seq<Pin>>)
  {
    && visited == Flat(groups)
    && Disjoint(groups)
    && StepClosed(keys, wires, groups)
    && Connected(wires, groups)
    && NonEmpty(groups)
  }

  lemma {:induction false} FlatAppend(groups: seq<seq<Pin>>, g: seq<Pin>)
    ensures Flat(groups + [g]) == Flat(groups) + Elems(g)
  {
    assert (groups + [g])[..|groups|] == groups;
  }

  /** The search started from an unvisited terminal yields a group that
      keeps every invariant of the outer loop. */
  lemma {:induction false} NewGroup(keys: seq<Pin>, wires: seq<Wire>, visited: set<Pin>, groups: seq<seq<Pin>>, s: Pin)
    requires visited <= Universe(keys, wires) && s in keys && s !in visited
    requires GroupsInv(keys, wires, visited, groups)
    ensures var e := Explore(keys, wires, [s], visited + {s}, []);
      GroupsInv(keys, wires, e.0, groups + [e.1])
  {
    var e := Explore(keys, wires, [s], visited + {s}, []);
    ExploreFacts(keys, wires, [s], visited + {s}, []);
    var g := e.1;
    var gs := groups + [g];
    assert s in g;
    assert forall x :: x in g ==> x !in visited;
    FlatAppend(groups, g);
    assert e.0 == Flat(gs);
    NewGroupDisjoint(groups, g, visited);
    NewGroupConnected(keys, wires, visited, groups, s);
    NewGroupClosed(keys, wires, visited, groups, s);
    assert NonEmpty(gs) by {
      forall j | 0 <= j < |gs| ensures |gs[j]| > 0 {
        if j < |groups| { assert gs[j] == groups[j]; }
      }
    }
  }

  lemma {:induction false} NewGroupDisjoint(groups: seq<seq<Pin>>, g: seq<Pin>, visited: set<Pin>)
    requires Disjoint(groups) && visited == Flat(groups)
    requires forall x :: x in g ==> x !in visited
    ensures Disjoint(groups + [g])
  {
    var gs := groups + [g];
    forall j1, j2, x | 0 <= j1 < j2 < |gs| && x in gs[j1] ensures x !in gs[j2] {
      assert gs[j1] == groups[j1];
      if j2 < |groups| { assert gs[j2] == groups[j2]; }
    }
  }

  lemma {:induction false} NewGroupConnected(keys: seq<Pin>, wires: seq<Wire>, visited: set<Pin>, groups: seq<seq<Pin>>, s: Pin)
    requires visited <= Universe(keys, wires) && s in keys
    requires Connected(wires, groups)
    ensures Connected(wires, groups + [Explore(keys, wires, [s], visited + {s}, []).1])
  {
    var g := Explore(keys, wires, [s], visited + {s}, []).1;
    var gs := groups + [g];
    LinkedRefl(wires, s);
    ExploreSound(keys, wires, [s], visited + {s}, [], s);
    forall j, x, y | 0 <= j < |gs| && x in gs[j] && y in gs[j] ensures Linked(wires, x, y) {
      if j < |groups| {
        assert gs[j] == groups[j];
      } else {
        LinkedSym(wires, s, x);
        LinkedTrans(wires, x, s, y);
      }
    }
  }

  lemma {:induction false} NewGroupClosed(keys: seq<Pin>, wires: seq<Wire>, visited: set<Pin>, groups: seq<seq<Pin>>, s: Pin)
    requires visited <= Universe(keys, wires) && s in keys && s !in visited
    requires visited == Flat(groups) && StepClosed(keys, wires, groups)
    ensures StepClosed(keys, wires, groups + [Explore(keys, wires, [s], visited + {s}, []).1])
  {
    var e := Explore(keys, wires, [s], visited + {s}, []);
    var g := e.1;
    var gs := groups + [g];
    ExploreFacts(keys, wires, [s], visited + {s}, []);
    ExploreClosed(keys, wires, [s], visited + {s}, []);
    assert forall z :: z in g ==> z !in visited;
    forall j, x, y | 0 <= j < |gs| && x in gs[j] && y in keys && y in Adj(keys, wires, x) ensures y in gs[j] {
      if j < |groups| {
        assert gs[j] == groups[j];
      } else {
        assert x in g && y in e.0;
        if y !in g {
          var k :| 0 <= k < |groups| && y in groups[k];
          NoBackEdge(keys, wires, groups, k, x, y);
          assert false;
        }
      }
    }
  }

  /** A terminal wired to a terminal of an earlier group lies in that group. */
  lemma {:induction false} NoBackEdge(keys: seq<Pin>, wires: seq<Wire>, groups: seq<seq<Pin>>, k: nat, x: Pin, y: Pin)
    requires StepClosed(keys, wires, groups) && k < |groups| && y in groups[k]
    requires x in keys && y in keys && y in Adj(keys, wires, x)
    ensures x in groups[k] && x in Flat(groups)
  {
    StepSym(wires, x, y);
    assert x in Adj(keys, wires, y);
  }

  /** The outer loop ends with disjoint, connected, wire-closed groups ... */
  lemma {:induction false} GroupAllInv(keys: seq<Pin>, wires: seq<Wire>, i: nat, visited: set<Pin>, groups: seq<seq<Pin>>)
    requires i <= |keys| && visited <= Universe(keys, wires)
    requires GroupsInv(keys, wires, visited, groups)
    ensures var r := GroupAll(keys, wires, i, visited, groups);
      GroupsInv(keys, wires, Flat(r), r) && Flat(r) <= Universe(keys, wires)
    decreases |keys| - i
  {
    if i < |keys| {
      if keys[i] in visited {
        GroupAllInv(keys, wires, i + 1, visited, groups);
      } else {
        var s := keys[i];
        var e := Explore(keys, wires, [s], visited + {s}, []);
        NewGroup(keys, wires, visited, groups, s);
        GroupAllInv(keys, wires, i + 1, e.0, groups + [e.1]);
        assert GroupAll(keys, wires, i, visited, groups) == GroupAll(keys, wires, i + 1, e.0, groups + [e.1]);
      }
    }
  }

  /** ... that cover every terminal. */
  lemma {:induction false} GroupAllCovers(keys: seq<Pin>, wires: seq<Wire>, i: nat, visited: set<Pin>, groups: seq<seq<Pin>>)
    requires i <= |keys| && visited <= Universe(keys, wires)
    requires visited == Flat(groups)
    requires forall k :: 0 <= k < i ==> keys[k] in visited
    ensures var r := GroupAll(keys, wires, i, visited, groups);
      forall k :: 0 <= k < |keys| ==> keys[k] in Flat(r)
    decreases |keys| - i
  {
    if i < |keys| {
      if keys[i] in visited {
        GroupAllCovers(keys, wires, i + 1, visited, groups);
      } else {
        var s := keys[i];
        var e := Explore(keys, wires, [s], visited + {s}, []);
        NewGroupFlat(keys, wires, visited, groups, s);
        assert forall k :: 0 <= k < i + 1 ==> keys[k] in e.0;
        GroupAllCovers(keys, wires, i + 1, e.0, groups + [e.1]);
        assert GroupAll(keys, wires, i, visited, groups) == GroupAll(keys, wires, i + 1, e.0, groups + [e.1]);
      }
    }
  }

  /** A search marks visited exactly the pins of the new group. */
  lemma {:induction false} NewGroupFlat(keys: seq<Pin>, wires: seq<Wire>, visited: set<Pin>, groups: seq<seq<Pin>>, s: Pin)
    requires visited <= Universe(keys, wires) && s in keys && visited == Flat(groups)
    ensures var e := Explore(keys, wires, [s], visited + {s}, []);
      e.0 == Flat(groups + [e.1]) && visited + {s} <= e.0
  {
    var e := Explore(keys, wires, [s], visited + {s}, []);
    ExploreFacts(keys, wires, [s], visited + {s}, []);
    FlatAppend(groups, e.1);
  }

  // ---------------------------------------------------------------------
  // The groups of a circuit

  /** Every wire end is a terminal of a present component. */
  predicate WiresOnTerminals(comps: seq<Component>, wires: seq<Wire>)
  {
    forall k :: 0 <= k < |wires| ==> IsTerminal(comps, wires[k].source) && IsTerminal(comps, wires[k].target)
  }

  /** The groups are non-empty, pairwise disjoint and internally wired,
      every terminal lies in one, and nothing but terminals and wire ends
      does. */
  lemma {:induction false} GroupsPartition(comps: seq<Component>, wires: seq<Wire>)
    ensures var gs := Groups(comps, wires);
      && Disjoint(gs) && NonEmpty(gs) && Connected(wires, gs)
      && (forall p :: IsTerminal(comps, p) ==> p in Flat(gs))
      && (forall p :: p in Flat(gs) ==> IsTerminal(comps, p) || p in Ends(wires))
  {
    var keys := PinKeys(comps);
    var gs := Groups(comps, wires);
    assert Flat([]) == {};
    GroupAllInv(keys, wires, 0, {}, []);
    GroupAllCovers(keys, wires, 0, {}, []);
    forall p | IsTerminal(comps, p) ensures p in Flat(gs) {
      PinKeysAreTerminals(comps, p);
      var k :| 0 <= k < |keys| && keys[k] == p;
    }
    forall p | p in Flat(gs) ensures IsTerminal(comps, p) || p in Ends(wires) {
      PinKeysAreTerminals(comps, p);
    }
  }

  /** Within wire-closed groups, a chain of wires between terminals never
      leaves the group it starts in. */
  lemma {:induction false} PathStaysInGroup(keys: seq<Pin>, wires: seq<Wire>, gs: seq<seq<Pin>>, j: nat, path: seq<Pin>)
    requires StepClosed(keys, wires, gs) && j < |gs|
    requires Ends(wires) <= Elems(keys)
    requires IsPath(wires, path) && |path| > 0 && path[0] in gs[j] && path[0] in keys
    ensures path[|path| - 1] in gs[j]
  {
    if |path| > 1 {
      var x, y := path[0], path[1];
      assert Step(wires, x, y);
      var k :| 0 <= k < |wires| && ((wires[k].source == x && wires[k].target == y) || (wires[k].source == y && wires[k].target == x));
      assert y in Ends(wires);
      assert y in Adj(keys, wires, x);
      assert IsPath(wires, path[1..]) by {
        forall i | 0 <= i < |path[1..]| - 1 ensures Step(wires, path[1..][i], path[1..][i + 1]) {
          assert Step(wires, path[i + 1], path[i + 2]);
        }
      }
      PathStaysInGroup(keys, wires, gs, j, path[1..]);
    }
  }

  /** When every wire end is a terminal, two pins share a group exactly when
      a chain of wires joins them. */
  lemma {:induction false} SameGroupIffLinked(comps: seq<Component>, wires: seq<Wire>, j: nat, a: Pin, b: Pin)
    requires WiresOnTerminals(comps, wires)
    requires j < |Groups(comps, wires)| && a in Groups(comps, wires)[j]
    ensures b in Groups(comps, wires)[j] <==> Linked(wires, a, b)
  {
    var keys := PinKeys(comps);
    var gs := Groups(comps, wires);
    assert Flat([]) == {};
    GroupAllInv(keys, wires, 0, {}, []);
    forall p | p in Ends(wires) ensures p in Elems(keys) {
      var k :| 0 <= k < |wires| && (wires[k].source == p || wires[k].target == p);
      PinKeysAreTerminals(comps, p);
    }
    assert a in Flat(gs);
    assert a in keys;
    if Linked(wires, a, b) {
      var path :| IsPath(wires, path) && |path| > 0 && path[0] == a && path[|path| - 1] == b;
      PathStaysInGroup(keys, wires, gs, j, path);
    }
  }

  /** The search agrees with the union-find of the topology classifier:
      when every wire end is a terminal, two pins share a group exactly
      when they share a root. */
  lemma {:induction false} GroupsAgreeWithUnionFind(comps: seq<Component>, wires: seq<Wire>, j: nat, a: Pin, b: Pin)
    requires WiresOnTerminals(comps, wires)
    requires j < |Groups(comps, wires)| && a in Groups(comps, wires)[j]
    ensures b in Groups(comps, wires)[j]
      <==> Root(UnionAll(wires), UnionAllHeight(wires), a) == Root(UnionAll(wires), UnionAllHeight(wires), b)
  {
    SameGroupIffLinked(comps, wires, j, a, b);
    UnionAllPartition(wires, a, b);
  }

  // ---------------------------------------------------------------------
  // Ground selection and node numbering

  /** The index of the first group holding `p`, or -1 when none does. */
  function FindGroup(groups: seq<seq<Pin>>, p: Pin): (r: int)
    ensures -1 <= r < |groups|
    ensures r >= 0 ==> p in groups[r]
    ensures forall j :: 0 <= j < |groups| && (r == -1 || j < r) ==> p !in groups[j]
  {
    if |groups| == 0 then -1
    else if p in groups[0] then 0
    else
      var r := FindGroup(groups[1..], p);
      assert forall j :: 1 <= j < |groups| ==> groups[j] == groups[1..][j - 1];
      if r == -1 then -1 else r + 1
  }

  /** The ground group: the first group holding pin 1 of the first battery,
      or group 0 when there is no battery or no group holds that pin. */
  function GroundIndex(comps: seq<Component>, groups: seq<seq<Pin>>): (g: nat)
    ensures |groups| > 0 ==> g < |groups|
    ensures var bs := Batteries(comps);
      if |bs| > 0 && Pin(bs[0].id, 1) in Flat(groups) then
        Pin(bs[0].id, 1) in groups[g] && forall j :: 0 <= j < g ==> Pin(bs[0].id, 1) !in groups[j]
      else g == 0
  {
    var bs := Batteries(comps);
    var idx := if |bs| > 0 then FindGroup(groups, Pin(bs[0].id, 1)) else -1;
    if idx == -1 then 0 else idx
  }

  /** The node number of group `idx` when group `g` is ground: ground
      becomes 0 and the groups before it shift up by one. */
  function Renumber(idx: nat, g: nat): nat
  {
    if idx == g then 0 else if idx < g then idx + 1 else idx
  }

  /** The group behind node `n` when group `g` is ground. */
  function Unnumber(n: nat, g: nat): nat
  {
    if n == 0 then g else if n <= g then n - 1 else n
  }

  /** Renumbering is a permutation of the group indices: it stays in range,
      sends only ground to 0, and `Unnumber` undoes it in both directions. */
  lemma {:induction false} RenumberIsPermutation(count: nat, g: nat, idx: nat, n: nat)
    requires g < count
    ensures idx < count ==> Renumber(idx, g) < count && Unnumber(Renumber(idx, g), g) == idx
    ensures n < count ==> Unnumber(n, g) < count && Renumber(Unnumber(n, g), g) == n
    ensures Renumber(idx, g) == 0 <==> idx == g
  {
  }

  /** The pin-to-node map: every pin of group `j` gets `Renumber(j, g)`,
      later groups overwriting earlier ones. */
  function NodeMap(groups: seq<seq<Pin>>, g: nat): (m: map<Pin, nat>)
    ensures m.Keys == Flat(groups)
    ensures forall p :: p in m ==> exists j :: 0 <= j < |groups| && p in groups[j] && m[p] == Renumber(j, g)
  {
    if |groups| == 0 then map[]
    else
      var n := |groups| - 1;
      var init := groups[..n];
      var prev := NodeMap(init, g);
      var m := prev + map p | p in Elems(groups[n]) :: Renumber(n, g);
      FlatAppend(init, groups[n]);
      assert groups == init + [groups[n]];
      assert forall j :: 0 <= j < n ==> init[j] == groups[j];
      m
  }

  /** With disjoint groups, each pin's node is its own group's number. */
  lemma {:induction false} NodeMapAt(groups: seq<seq<Pin>>, g: nat, j: nat, p: Pin)
    requires Disjoint(groups) && j < |groups| && p in groups[j]
    ensures p in NodeMap(groups, g) && NodeMap(groups, g)[p] == Renumber(j, g)
  {
    var m := NodeMap(groups, g);
    assert p in Flat(groups);
    var j' :| 0 <= j' < |groups| && p in groups[j'] && m[p] == Renumber(j', g);
    assert j' == j;
  }

  /** The node numbers of a circuit's terminals. */
  function Nodes(comps: seq<Component>, wires: seq<Wire>): (m: map<Pin, nat>)
  {
    var gs := Groups(comps, wires);
    NodeMap(gs, GroundIndex(comps, gs))
  }

  /** Every terminal has a node number below the group count. */
  lemma {:induction false} NodeInRange(comps: seq<Component>, wires: seq<Wire>, p: Pin)
    requires IsTerminal(comps, p)
    ensures p in Nodes(comps, wires) && Nodes(comps, wires)[p] < |Groups(comps, wires)|
  {
    var gs := Groups(comps, wires);
    var g := GroundIndex(comps, gs);
    GroupsPartition(comps, wires);
    var j :| 0 <= j < |gs| && p in gs[j];
    NodeMapAt(gs, g, j, p);
    RenumberIsPermutation(|gs|, g, j, 0);
  }

  /** Two numbered pins share a node number exactly when they share a group. */
  lemma {:induction false} SameNodeIffSameGroup(comps: seq<Component>, wires: seq<Wire>, p: Pin, q: Pin)
    requires p in Nodes(comps, wires) && q in Nodes(comps, wires)
    ensures var gs := Groups(comps, wires);
      Nodes(comps, wires)[p] == Nodes(comps, wires)[q] <==> exists j :: 0 <= j < |gs| && p in gs[j] && q in gs[j]
  {
    var gs := Groups(comps, wires);
    var g := GroundIndex(comps, gs);
    var m := Nodes(comps, wires);
    GroupsPartition(comps, wires);
    var jp :| 0 <= jp < |gs| && p in gs[jp];
    var jq :| 0 <= jq < |gs| && q in gs[jq];
    NodeMapAt(gs, g, jp, p);
    NodeMapAt(gs, g, jq, q);
    RenumberIsPermutation(|gs|, g, jp, 0);
    RenumberIsPermutation(|gs|, g, jq, 0);
    if m[p] == m[q] {
      assert Unnumber(Renumber(jp, g), g) == Unnumber(Renumber(jq, g), g);
      assert p in gs[jp] && q in gs[jp];
    }
    if exists j :: 0 <= j < |gs| && p in gs[j] && q in gs[j] {
      var j :| 0 <= j < |gs| && p in gs[j] && q in gs[j];
      NodeMapAt(gs, g, j, p);
      NodeMapAt(gs, g, j, q);
    }
  }

  /** The negative terminal of the first battery is node 0. */
  lemma {:induction false} GroundIsNodeZero(comps: seq<Component>, wires: seq<Wire>)
    requires |Batteries(comps)| > 0
    ensures var b := Pin(Batteries(comps)[0].id, 1);
      b in Nodes(comps, wires) && Nodes(comps, wires)[b] == 0
  {
    var gs := Groups(comps, wires);
    var g := GroundIndex(comps, gs);
    var bs := Batteries(comps);
    var b := Pin(bs[0].id, 1);
    GroupsPartition(comps, wires);
    var i := BatterySource(comps, 0);
    assert IsTerminal(comps, b);
    assert b in Flat(gs);
    NodeMapAt(gs, g, g, b);
  }

  /** Node numbers stay below the group count. */
  lemma {:induction false} NodesBounded(comps: seq<Component>, wires: seq<Wire>, p: Pin)
    requires p in Nodes(comps, wires)
    ensures Nodes(comps, wires)[p] < |Groups(comps, wires)|
  {
    var gs := Groups(comps, wires);
    var g := GroundIndex(comps, gs);
    var j :| 0 <= j < |gs| && p in gs[j] && Nodes(comps, wires)[p] == Renumber(j, g);
    RenumberIsPermutation(|gs|, g, j, 0);
  }
}
