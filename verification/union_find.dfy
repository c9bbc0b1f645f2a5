/** The disjoint-set forest the topology analysis builds over pins: `find`
    with path compression, `union` linking the first root under the second,
    and the pass that unions the two ends of every wire.

    The parent map is the real state. A ghost height map, lower at every
    parent than at its child, is the termination measure of `find`; it is
    not part of the source. */
module UnionFind {
  import opened Circuit

  /** The height of a pin; pins outside the map sit at 0. */
  function Height(h: map<Pin, nat>, p: Pin): nat
  {
    if p in h then h[p] else 0
  }

  /** A non-root's parent is strictly lower than the pin itself. */
  ghost predicate Forest(parent: map<Pin, Pin>, h: map<Pin, nat>)
  {
    forall p {:trigger parent[p]} :: p in parent && parent[p] != p ==> Height(h, parent[p]) < Height(h, p)
  }

  /** Every parent is itself a key. */
  ghost predicate Closed(parent: map<Pin, Pin>)
  {
    parent.Values <= parent.Keys
  }

  /** The root reached by following parents. A pin not in the map is its
      own root, which is what `find` makes it on first sight. */
  ghost function Root(parent: map<Pin, Pin>, h: map<Pin, nat>, p: Pin): Pin
    requires Forest(parent, h)
    decreases Height(h, p)
  {
    if p in parent && parent[p] != p then Root(parent, h, parent[p]) else p
  }

  lemma {:induction false} RootIsRoot(parent: map<Pin, Pin>, h: map<Pin, nat>, p: Pin)
    requires Forest(parent, h)
    ensures Root(parent, h, p) in parent ==> parent[Root(parent, h, p)] == Root(parent, h, p)
    ensures Root(parent, h, p) != p ==> Height(h, Root(parent, h, p)) < Height(h, p)
    decreases Height(h, p)
  {
    if p in parent && parent[p] != p {
      RootIsRoot(parent, h, parent[p]);
    }
  }

  /** In a closed forest the root of a key is a key and its own parent. */
  lemma {:induction false} RootFacts(parent: map<Pin, Pin>, h: map<Pin, nat>, p: Pin)
    requires Forest(parent, h) && Closed(parent) && p in parent
    ensures Root(parent, h, p) in parent && parent[Root(parent, h, p)] == Root(parent, h, p)
    decreases Height(h, p)
  {
    if parent[p] != p {
      assert parent[p] in parent.Values;
      RootFacts(parent, h, parent[p]);
    }
  }

  /** Two forests give every pin the same root. */
  ghost predicate SameRoots(a: map<Pin, Pin>, ha: map<Pin, nat>, b: map<Pin, Pin>, hb: map<Pin, nat>)
    requires Forest(a, ha) && Forest(b, hb)
  {
    forall q :: Root(a, ha, q) == Root(b, hb, q)
  }

  /** Forest `b` is forest `a` with the class of root `ri` merged into the
      class of root `rj`; every other pin keeps its root. */
  ghost predicate Merged(a: map<Pin, Pin>, ha: map<Pin, nat>, b: map<Pin, Pin>, hb: map<Pin, nat>, ri: Pin, rj: Pin)
    requires Forest(a, ha) && Forest(b, hb)
  {
    forall q :: Root(b, hb, q) == (if Root(a, ha, q) == ri then rj else Root(a, ha, q))
  }

  /** Pointing `x` straight at its root changes no pin's root. */
  lemma {:induction false} CompressKeepsRoot(parent: map<Pin, Pin>, h: map<Pin, nat>, x: Pin, q: Pin)
    requires Forest(parent, h) && Forest(parent[x := Root(parent, h, x)], h)
    ensures Root(parent[x := Root(parent, h, x)], h, q) == Root(parent, h, q)
    decreases Height(h, q)
  {
    if q == x {
      RootIsRoot(parent, h, x);
    } else if q in parent && parent[q] != q {
      CompressKeepsRoot(parent, h, x, parent[q]);
    }
  }

  lemma {:induction false} CompressIsForest(parent: map<Pin, Pin>, h: map<Pin, nat>, x: Pin)
    requires Forest(parent, h)
    ensures Forest(parent[x := Root(parent, h, x)], h)
  {
    RootIsRoot(parent, h, x);
  }

  /** The compression step of `find`: after the recursive call on the
      parent, pointing `p` at the root found keeps every root. */
  lemma {:induction false} CompressStep(parent: map<Pin, Pin>, h: map<Pin, nat>, p: Pin, root: Pin, p2: map<Pin, Pin>)
    requires Forest(parent, h) && p in parent && parent[p] != p
    requires Forest(p2, h) && SameRoots(p2, h, parent, h)
    requires root == Root(parent, h, parent[p])
    ensures root == Root(parent, h, p)
    ensures Forest(p2[p := root], h) && SameRoots(p2[p := root], h, parent, h)
  {
    assert Root(p2, h, p) == root;
    CompressIsForest(p2, h, p);
    forall q ensures Root(p2[p := root], h, q) == Root(parent, h, q) {
      CompressKeepsRoot(p2, h, p, q);
    }
  }

  lemma {:induction false} InsertStep(parent: map<Pin, Pin>, h: map<Pin, nat>, p: Pin)
    requires Forest(parent, h) && p !in parent
    ensures Forest(parent[p := p], h) && SameRoots(parent[p := p], h, parent, h)
  {
    forall q ensures Root(parent[p := p], h, q) == Root(parent, h, q) {
      InsertKeepsRoot(parent, h, p, q);
    }
  }

  lemma {:induction false} InsertKeepsRoot(parent: map<Pin, Pin>, h: map<Pin, nat>, p: Pin, q: Pin)
    requires Forest(parent, h) && p !in parent
    ensures Forest(parent[p := p], h)
    ensures Root(parent[p := p], h, q) == Root(parent, h, q)
    decreases Height(h, q)
  {
    if q in parent && parent[q] != q {
      InsertKeepsRoot(parent, h, p, parent[q]);
    }
  }

  /** `find`: inserts a missing pin as its own root, returns the root, and
      points every pin on the path straight at it. No pin's root changes. */
  function Find(parent: map<Pin, Pin>, ghost h: map<Pin, nat>, p: Pin): (r: (Pin, map<Pin, Pin>))
    requires Forest(parent, h) && Closed(parent)
    ensures Forest(r.1, h) && Closed(r.1)
    ensures r.1.Keys == parent.Keys + {p}
    ensures r.0 == Root(parent, h, p)
    ensures r.0 in r.1 && r.1[r.0] == r.0
    ensures SameRoots(r.1, h, parent, h)
    decreases Height(h, p)
  {
    if p !in parent then
      InsertStep(parent, h, p);
      (p, parent[p := p])
    else if parent[p] == p then (p, parent)
    else
      assert parent[p] in parent.Values;
      var sub := Find(parent, h, parent[p]);
      CompressStep(parent, h, p, sub.0, sub.1);
      (sub.0, sub.1[p := sub.0])
  }

  /** The height after linking root `ri` under root `rj`: the tree of `ri`
      is lifted above `rj`. */
  ghost function Lift(parent: map<Pin, Pin>, h: map<Pin, nat>, ri: Pin, rj: Pin): map<Pin, nat>
    requires Forest(parent, h)
  {
    map q | q in parent.Keys + {ri} :: if Root(parent, h, q) == ri then Height(h, q) + Height(h, rj) + 1 else Height(h, q)
  }

  /** Linking one root under another merges exactly those two classes. */
  lemma {:induction false} LinkRoots(parent: map<Pin, Pin>, h: map<Pin, nat>, ri: Pin, rj: Pin)
    requires Forest(parent, h) && ri in parent && parent[ri] == ri && ri != rj
    requires rj in parent ==> parent[rj] == rj
    ensures Forest(parent[ri := rj], Lift(parent, h, ri, rj))
    ensures Merged(parent, h, parent[ri := rj], Lift(parent, h, ri, rj), ri, rj)
  {
    var h2 := Lift(parent, h, ri, rj);
    var p2 := parent[ri := rj];
    forall p | p in p2 && p2[p] != p
      ensures Height(h2, p2[p]) < Height(h2, p)
    {
      if p != ri {
        assert Root(parent, h, p) == Root(parent, h, parent[p]);
      }
    }
    forall q
      ensures Root(p2, h2, q) == (if Root(parent, h, q) == ri then rj else Root(parent, h, q))
    {
      LinkRootAt(parent, h, ri, rj, q);
    }
  }

  lemma {:induction false} LinkRootAt(parent: map<Pin, Pin>, h: map<Pin, nat>, ri: Pin, rj: Pin, q: Pin)
    requires Forest(parent, h) && ri in parent && parent[ri] == ri && ri != rj
    requires rj in parent ==> parent[rj] == rj
    requires Forest(parent[ri := rj], Lift(parent, h, ri, rj))
    ensures Root(parent[ri := rj], Lift(parent, h, ri, rj), q) == (if Root(parent, h, q) == ri then rj else Root(parent, h, q))
    decreases Height(h, q)
  {
    var h2 := Lift(parent, h, ri, rj);
    var p2 := parent[ri := rj];
    if q == ri {
      assert Root(p2, h2, rj) == rj;
    } else if q in parent && parent[q] != q {
      LinkRootAt(parent, h, ri, rj, parent[q]);
    }
  }

  /** The forest after `find(i)` then `find(j)`, before any link. */
  function FindBoth(parent: map<Pin, Pin>, ghost h: map<Pin, nat>, i: Pin, j: Pin): (r: map<Pin, Pin>)
    requires Forest(parent, h) && Closed(parent)
    ensures Forest(r, h) && Closed(r)
    ensures r.Keys == parent.Keys + {i, j}
    ensures SameRoots(r, h, parent, h)
  {
    var f1 := Find(parent, h, i).1;
    var f2 := Find(f1, h, j).1;
    assert SameRoots(f2, h, parent, h) by {
      forall q ensures Root(f2, h, q) == Root(parent, h, q) {
        assert Root(f2, h, q) == Root(f1, h, q);
      }
    }
    f2
  }

  /** The height map after `Union(parent, h, i, j)`. */
  ghost function UnionHeight(parent: map<Pin, Pin>, h: map<Pin, nat>, i: Pin, j: Pin): map<Pin, nat>
    requires Forest(parent, h) && Closed(parent)
  {
    var ri := Root(parent, h, i);
    var rj := Root(parent, h, j);
    if ri == rj then h else Lift(FindBoth(parent, h, i, j), h, ri, rj)
  }

  /** `union`: finds both roots and, when they differ, links the first under
      the second. */
  function Union(parent: map<Pin, Pin>, ghost h: map<Pin, nat>, i: Pin, j: Pin): (r: map<Pin, Pin>)
    requires Forest(parent, h) && Closed(parent)
    ensures r.Keys == parent.Keys + {i, j}
  {
    var fi := Find(parent, h, i);
    var fj := Find(fi.1, h, j);
    if fi.0 != fj.0 then fj.1[fi.0 := fj.0] else fj.1
  }

  /** Every pin of `i`'s class ends up in `j`'s class; every other pin
      keeps its root. */
  lemma {:induction false} UnionMerges(parent: map<Pin, Pin>, h: map<Pin, nat>, i: Pin, j: Pin)
    requires Forest(parent, h) && Closed(parent)
    ensures Closed(Union(parent, h, i, j))
    ensures Forest(Union(parent, h, i, j), UnionHeight(parent, h, i, j))
    ensures Merged(parent, h, Union(parent, h, i, j), UnionHeight(parent, h, i, j), Root(parent, h, i), Root(parent, h, j))
  {
    var fi := Find(parent, h, i);
    var fj := Find(fi.1, h, j);
    FindPairFacts(parent, h, i, j, fi, fj);
    if fi.0 != fj.0 {
      assert UnionHeight(parent, h, i, j) == Lift(fj.1, h, fi.0, fj.0);
      assert Union(parent, h, i, j) == fj.1[fi.0 := fj.0];
      LinkStep(parent, h, fj.1, fi.0, fj.0);
    } else {
      assert UnionHeight(parent, h, i, j) == h;
      assert Union(parent, h, i, j) == fj.1;
      KeepStep(parent, h, fj.1, fi.0);
    }
  }

  /** After `find(i)` then `find(j)`, both roots found are still roots. */
  lemma {:induction false} FindPairFacts(parent: map<Pin, Pin>, h: map<Pin, nat>, i: Pin, j: Pin, fi: (Pin, map<Pin, Pin>), fj: (Pin, map<Pin, Pin>))
    requires Forest(parent, h) && Closed(parent)
    requires fi == Find(parent, h, i) && fj == Find(fi.1, h, j)
    ensures fj.1 == FindBoth(parent, h, i, j)
    ensures fi.0 == Root(parent, h, i) && fj.0 == Root(parent, h, j)
    ensures fi.0 in fj.1 && fj.1[fi.0] == fi.0 && fj.0 in fj.1 && fj.1[fj.0] == fj.0
  {
    assert Root(fi.1, h, j) == Root(parent, h, j);
    assert Root(fj.1, h, i) == Root(fi.1, h, i);
    RootFacts(fj.1, h, i);
    RootFacts(fj.1, h, j);
  }

  /** The link of `union` merges the two classes of the forest it started
      from. */
  lemma {:induction false} LinkStep(parent: map<Pin, Pin>, h: map<Pin, nat>, p2: map<Pin, Pin>, ri: Pin, rj: Pin)
    requires Forest(parent, h) && Forest(p2, h) && Closed(p2) && SameRoots(p2, h, parent, h)
    requires ri in p2 && p2[ri] == ri && rj in p2 && p2[rj] == rj && ri != rj
    ensures Closed(p2[ri := rj])
    ensures Forest(p2[ri := rj], Lift(p2, h, ri, rj))
    ensures Merged(parent, h, p2[ri := rj], Lift(p2, h, ri, rj), ri, rj)
  {
    LinkRoots(p2, h, ri, rj);
    var h2 := Lift(p2, h, ri, rj);
    forall q ensures Root(p2[ri := rj], h2, q) == (if Root(parent, h, q) == ri then rj else Root(parent, h, q)) {
      assert Root(p2, h, q) == Root(parent, h, q);
    }
    var m := p2[ri := rj];
    forall k | k in m ensures m[k] in m {
      if k != ri { assert p2[k] in p2.Values; }
    }
  }

  lemma {:induction false} KeepStep(parent: map<Pin, Pin>, h: map<Pin, nat>, p2: map<Pin, Pin>, r: Pin)
    requires Forest(parent, h) && Forest(p2, h) && SameRoots(p2, h, parent, h)
    ensures Merged(parent, h, p2, h, r, r)
  {
    forall q ensures Root(p2, h, q) == (if Root(parent, h, q) == r then r else Root(parent, h, q)) {
      assert Root(p2, h, q) == Root(parent, h, q);
    }
  }

  /** The pins named by the ends of the wires. */
  function Ends(wires: seq<Wire>): (e: set<Pin>)
    ensures forall p :: p in e <==> exists k :: 0 <= k < |wires| && (wires[k].source == p || wires[k].target == p)
  {
    if |wires| == 0 then {}
    else
      var init := wires[..|wires| - 1];
      var e := Ends(init) + {wires[|wires| - 1].source, wires[|wires| - 1].target};
      assert forall p :: p in e <==> exists k :: 0 <= k < |wires| && (wires[k].source == p || wires[k].target == p) by {
        forall p ensures p in e <==> exists k :: 0 <= k < |wires| && (wires[k].source == p || wires[k].target == p) {
          if p in Ends(init) {
            var k :| 0 <= k < |init| && (init[k].source == p || init[k].target == p);
            assert wires[k] == init[k];
          }
          if exists k :: 0 <= k < |wires| && (wires[k].source == p || wires[k].target == p) {
            var k :| 0 <= k < |wires| && (wires[k].source == p || wires[k].target == p);
            if k < |init| { assert init[k] == wires[k]; }
          }
        }
      }
      e
  }

  /** One step along a wire, in either direction. */
  ghost predicate Step(wires: seq<Wire>, a: Pin, b: Pin)
  {
    exists k :: 0 <= k < |wires| && ((wires[k].source == a && wires[k].target == b) || (wires[k].source == b && wires[k].target == a))
  }

  ghost predicate IsPath(wires: seq<Wire>, path: seq<Pin>)
  {
    forall i :: 0 <= i < |path| - 1 ==> Step(wires, path[i], path[i + 1])
  }

  /** Two pins are joined by a chain of wires (or are the same pin). */
  ghost predicate Linked(wires: seq<Wire>, a: Pin, b: Pin)
  {
    exists path :: IsPath(wires, path) && |path| > 0 && path[0] == a && path[|path| - 1] == b
  }

  lemma {:induction false} LinkedRefl(wires: seq<Wire>, a: Pin)
    ensures Linked(wires, a, a)
  {
    assert IsPath(wires, [a]);
  }

  lemma {:induction false} LinkedSym(wires: seq<Wire>, a: Pin, b: Pin)
    requires Linked(wires, a, b)
    ensures Linked(wires, b, a)
  {
    var path :| IsPath(wires, path) && |path| > 0 && path[0] == a && path[|path| - 1] == b;
    var rev := seq(|path|, i requires 0 <= i < |path| => path[|path| - 1 - i]);
    forall i | 0 <= i < |rev| - 1
      ensures Step(wires, rev[i], rev[i + 1])
    {
      var k := |path| - 2 - i;
      assert Step(wires, path[k], path[k + 1]);
      assert rev[i] == path[k + 1] && rev[i + 1] == path[k];
    }
    assert IsPath(wires, rev) && rev[0] == b && rev[|rev| - 1] == a;
  }

  lemma {:induction false} LinkedTrans(wires: seq<Wire>, a: Pin, b: Pin, c: Pin)
    requires Linked(wires, a, b) && Linked(wires, b, c)
    ensures Linked(wires, a, c)
  {
    var p1 :| IsPath(wires, p1) && |p1| > 0 && p1[0] == a && p1[|p1| - 1] == b;
    var p2 :| IsPath(wires, p2) && |p2| > 0 && p2[0] == b && p2[|p2| - 1] == c;
    var path := p1 + p2[1..];
    forall i | 0 <= i < |path| - 1
      ensures Step(wires, path[i], path[i + 1])
    {
      if i < |p1| - 1 {
        assert Step(wires, p1[i], p1[i + 1]);
      } else {
        var k := i - |p1| + 1;
        assert path[i] == p2[k] && path[i + 1] == p2[k + 1];
        assert Step(wires, p2[k], p2[k + 1]);
      }
    }
    assert path[|path| - 1] == c;
  }

  /** A chain over a prefix of the wires is a chain over a longer prefix. */
  lemma {:induction false} LinkedGrow(wires: seq<Wire>, k: nat, a: Pin, b: Pin)
    requires k < |wires| && Linked(wires[..k], a, b)
    ensures Linked(wires[..k + 1], a, b)
  {
    var path :| IsPath(wires[..k], path) && |path| > 0 && path[0] == a && path[|path| - 1] == b;
    forall i | 0 <= i < |path| - 1
      ensures Step(wires[..k + 1], path[i], path[i + 1])
    {
      assert Step(wires[..k], path[i], path[i + 1]);
      var m :| 0 <= m < k && ((wires[..k][m].source == path[i] && wires[..k][m].target == path[i + 1])
        || (wires[..k][m].source == path[i + 1] && wires[..k][m].target == path[i]));
      assert wires[..k + 1][m] == wires[m];
    }
  }

  lemma {:induction false} LinkedByWire(wires: seq<Wire>, k: nat)
    requires k < |wires|
    ensures Linked(wires[..k + 1], wires[k].source, wires[k].target)
  {
    var path := [wires[k].source, wires[k].target];
    assert wires[..k + 1][k] == wires[k];
    assert Step(wires[..k + 1], path[0], path[1]);
    assert IsPath(wires[..k + 1], path);
  }

  /** Along a chain whose every step joins two pins with one root, the
      ends share the root. */
  lemma {:induction false} PathSameRoot(wires: seq<Wire>, parent: map<Pin, Pin>, h: map<Pin, nat>, path: seq<Pin>)
    requires Forest(parent, h) && IsPath(wires, path) && |path| > 0
    requires forall m :: 0 <= m < |wires| ==> Root(parent, h, wires[m].source) == Root(parent, h, wires[m].target)
    ensures Root(parent, h, path[0]) == Root(parent, h, path[|path| - 1])
  {
    if |path| > 1 {
      assert IsPath(wires, path[1..]) by {
        forall i | 0 <= i < |path[1..]| - 1
          ensures Step(wires, path[1..][i], path[1..][i + 1])
        {
          assert Step(wires, path[i + 1], path[i + 2]);
        }
      }
      PathSameRoot(wires, parent, h, path[1..]);
      assert Step(wires, path[0], path[1]);
    }
  }

  /** The wire pass: unions the two ends of every wire, in list order. */
  function UnionAll(wires: seq<Wire>): (parent: map<Pin, Pin>)
    ensures Forest(parent, UnionAllHeight(wires)) && Closed(parent)
    ensures parent.Keys == Ends(wires)
    decreases |wires|, 1
  {
    if |wires| == 0 then map[]
    else
      var init := wires[..|wires| - 1];
      var w := wires[|wires| - 1];
      UnionMerges(UnionAll(init), UnionAllHeight(init), w.source, w.target);
      Union(UnionAll(init), UnionAllHeight(init), w.source, w.target)
  }

  /** The height map matching `UnionAll(wires)`. */
  ghost function UnionAllHeight(wires: seq<Wire>): map<Pin, nat>
    decreases |wires|, 0
  {
    if |wires| == 0 then map[]
    else
      var init := wires[..|wires| - 1];
      var w := wires[|wires| - 1];
      var p := UnionAll(init);
      UnionHeight(p, UnionAllHeight(init), w.source, w.target)
  }

  /** One wire-pass step: the forest before the last wire's union and the
      facts that union gives. */
  lemma {:induction false} LastUnion(wires: seq<Wire>)
    requires |wires| > 0
    ensures var k := |wires| - 1;
      var prev := UnionAll(wires[..k]);
      var oldH := UnionAllHeight(wires[..k]);
      && UnionAll(wires) == Union(prev, oldH, wires[k].source, wires[k].target)
      && UnionAllHeight(wires) == UnionHeight(prev, oldH, wires[k].source, wires[k].target)
      && Merged(prev, oldH, UnionAll(wires), UnionAllHeight(wires), Root(prev, oldH, wires[k].source), Root(prev, oldH, wires[k].target))
  {
    var k := |wires| - 1;
    UnionMerges(UnionAll(wires[..k]), UnionAllHeight(wires[..k]), wires[k].source, wires[k].target);
  }

  /** After the wire pass the two ends of every wire share a root. */
  lemma {:induction false} UnionAllJoinsEnds(wires: seq<Wire>)
    ensures forall m :: 0 <= m < |wires| ==>
      Root(UnionAll(wires), UnionAllHeight(wires), wires[m].source) == Root(UnionAll(wires), UnionAllHeight(wires), wires[m].target)
  {
    if |wires| > 0 {
      var k := |wires| - 1;
      var init := wires[..k];
      UnionAllJoinsEnds(init);
      LastUnion(wires);
      var parent := UnionAll(wires);
      var h := UnionAllHeight(wires);
      var prev := UnionAll(init);
      var oldH := UnionAllHeight(init);
      var ri := Root(prev, oldH, wires[k].source);
      var rj := Root(prev, oldH, wires[k].target);
      assert Forest(prev, oldH);
      assert Forest(parent, h);
      assert Merged(prev, oldH, parent, h, ri, rj);
      forall m | 0 <= m < |wires|
        ensures Root(parent, h, wires[m].source) == Root(parent, h, wires[m].target)
      {
        if m < k {
          assert init[m] == wires[m];
          assert Root(prev, oldH, init[m].source) == Root(prev, oldH, init[m].target);
          MergeKeepsJoin(prev, oldH, parent, h, ri, rj, wires[m].source, wires[m].target);
        } else {
          assert m == k;
          MergeJoins(prev, oldH, parent, h, wires[k].source, wires[k].target);
        }
      }
    }
  }

  /** A merge keeps two pins that shared a root together. */
  lemma {:induction false} MergeKeepsJoin(a: map<Pin, Pin>, ha: map<Pin, nat>, b: map<Pin, Pin>, hb: map<Pin, nat>, ri: Pin, rj: Pin, x: Pin, y: Pin)
    requires Forest(a, ha) && Forest(b, hb) && Merged(a, ha, b, hb, ri, rj)
    requires Root(a, ha, x) == Root(a, ha, y)
    ensures Root(b, hb, x) == Root(b, hb, y)
  {
    assert Root(b, hb, x) == (if Root(a, ha, x) == ri then rj else Root(a, ha, x));
    assert Root(b, hb, y) == (if Root(a, ha, y) == ri then rj else Root(a, ha, y));
  }

  /** Merging the classes of `x` and `y` gives them one root. */
  lemma {:induction false} MergeJoins(a: map<Pin, Pin>, ha: map<Pin, nat>, b: map<Pin, Pin>, hb: map<Pin, nat>, x: Pin, y: Pin)
    requires Forest(a, ha) && Forest(b, hb) && Merged(a, ha, b, hb, Root(a, ha, x), Root(a, ha, y))
    ensures Root(b, hb, x) == Root(b, hb, y)
  {
    assert Root(b, hb, x) == Root(a, ha, y);
    assert Root(b, hb, y) == Root(a, ha, y);
  }

  /** After the wire pass every pin is joined to its root by a chain of
      wires. */
  lemma {:induction false} UnionAllRootsLinked(wires: seq<Wire>)
    ensures forall q :: Linked(wires, q, Root(UnionAll(wires), UnionAllHeight(wires), q))
  {
    var parent := UnionAll(wires);
    var h := UnionAllHeight(wires);
    if |wires| == 0 {
      forall q ensures Linked(wires, q, Root(parent, h, q)) {
        LinkedRefl(wires, q);
      }
    } else {
      var k := |wires| - 1;
      var init := wires[..k];
      UnionAllRootsLinked(init);
      LastUnion(wires);
      var prev := UnionAll(init);
      var oldH := UnionAllHeight(init);
      var i := wires[k].source;
      var j := wires[k].target;
      var ri := Root(prev, oldH, i);
      var rj := Root(prev, oldH, j);
      assert wires[..k + 1] == wires;
      forall q
        ensures Linked(wires, q, Root(parent, h, q))
      {
        var rq := Root(prev, oldH, q);
        LinkedGrow(wires, k, q, rq);
        assert Root(parent, h, q) == (if rq == ri then rj else rq);
        if rq == ri {
          LinkedGrow(wires, k, i, ri);
          LinkedSym(wires, i, ri);
          LinkedByWire(wires, k);
          LinkedGrow(wires, k, j, rj);
          LinkedTrans(wires, q, ri, i);
          LinkedTrans(wires, q, i, j);
          LinkedTrans(wires, q, j, rj);
        }
      }
    }
  }

  /** After the wire pass two pins share a root exactly when a chain of
      wires joins them. */
  lemma {:induction false} UnionAllPartition(wires: seq<Wire>, a: Pin, b: Pin)
    ensures Root(UnionAll(wires), UnionAllHeight(wires), a) == Root(UnionAll(wires), UnionAllHeight(wires), b) <==> Linked(wires, a, b)
  {
    var parent := UnionAll(wires);
    var h := UnionAllHeight(wires);
    UnionAllJoinsEnds(wires);
    UnionAllRootsLinked(wires);
    if Root(parent, h, a) == Root(parent, h, b) {
      LinkedSym(wires, b, Root(parent, h, b));
      LinkedTrans(wires, a, Root(parent, h, a), b);
    }
    if Linked(wires, a, b) {
      var path :| IsPath(wires, path) && |path| > 0 && path[0] == a && path[|path| - 1] == b;
      PathSameRoot(wires, parent, h, path);
    }
  }
}
