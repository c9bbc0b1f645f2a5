/** The list transforms behind the editor's handlers: add, move, update,
    delete and connect, plus the reset of readings after a failed solve.
    Fresh ids and random positions are parameters. */
module Editing {
  import opened Circuit
  import opened Text
  import opened Topology

  /** Label prefix of a new component: U for a battery, R for a resistor,
      L for a bulb, none for the other kinds. */
  function LabelPrefix(t: ComponentType): string
  {
    if t == BATTERY then "U" else if t == RESISTOR then "R" else if t == BULB then "L" else ""
  }

  /** Appends a new component of kind `t`: default value and switch state,
      rotation 0, and a label numbering it among the components of its kind. */
  function AddComponent(comps: seq<Component>, t: ComponentType, id: string, x: real, y: real): (r: seq<Component>)
    ensures |r| == |comps| + 1 && r[..|comps|] == comps
    ensures r[|comps|].id == id && r[|comps|].kind == t && r[|comps|].x == x && r[|comps|].y == y
    ensures r[|comps|].rotation == 0 && r[|comps|].current.None? && r[|comps|].voltageDrop.None?
    ensures r[|comps|].value == (if t == BATTERY then 12.0 else if t == RESISTOR || t == RHEOSTAT then 10.0 else 0.0)
    ensures r[|comps|].isOpen == (if t == SWITCH then Some(true) else None)
  {
    var n := CountKind(comps, t) + 1;
    comps + [Component(id, t, x, y, 0, DefaultValue(t), LabelPrefix(t) + ShowNat(n), DefaultIsOpen(t), None, None)]
  }

  /** The number in a new label is the count of components of that kind
      once the new one is added, so the k-th battery is U<k>. */
  lemma {:induction false} AddLabelNumbersKind(comps: seq<Component>, t: ComponentType, id: string, x: real, y: real)
    ensures var r := AddComponent(comps, t, id, x, y);
      var lbl := r[|comps|].labelText;
      && |LabelPrefix(t)| <= |lbl|
      && lbl[..|LabelPrefix(t)|] == LabelPrefix(t)
      && (forall i :: |LabelPrefix(t)| <= i < |lbl| ==> '0' <= lbl[i] <= '9')
      && ParseNat(lbl[|LabelPrefix(t)|..]) == CountKind(r, t)
  {
    var r := AddComponent(comps, t, id, x, y);
    var n := CountKind(comps, t) + 1;
    var lbl := r[|comps|].labelText;
    assert lbl == LabelPrefix(t) + ShowNat(n);
    assert lbl[|LabelPrefix(t)|..] == ShowNat(n);
    ParseShowNat(n);
    CountKindAppend(comps, r[|comps|], t);
    assert r == comps + [r[|comps|]];
  }

  /** Adding a component under a fresh id keeps ids unique and every wire
      end resolving. */
  lemma {:induction false} AddPreservesInvariants(comps: seq<Component>, wires: seq<Wire>, t: ComponentType, id: string, x: real, y: real)
    requires UniqueIds(comps) && !HasId(comps, id) && NoDanglingWires(comps, wires)
    ensures UniqueIds(AddComponent(comps, t, id, x, y))
    ensures NoDanglingWires(AddComponent(comps, t, id, x, y), wires)
  {
    var r := AddComponent(comps, t, id, x, y);
    forall j | 0 <= j < |wires|
      ensures HasId(r, wires[j].source.comp) && HasId(r, wires[j].target.comp)
    {
      var a :| 0 <= a < |comps| && comps[a].id == wires[j].source.comp;
      var b :| 0 <= b < |comps| && comps[b].id == wires[j].target.comp;
      assert r[a] == comps[a] && r[b] == comps[b];
    }
  }

  /** Moves the component with the given id; every other component is
      returned unchanged, in place. */
  function MoveComponent(comps: seq<Component>, id: string, x: real, y: real): (r: seq<Component>)
    ensures |r| == |comps|
    ensures forall i :: 0 <= i < |comps| && comps[i].id != id ==> r[i] == comps[i]
    ensures forall i :: 0 <= i < |comps| && comps[i].id == id ==> r[i] == comps[i].(x := x, y := y)
  {
    seq(|comps|, i requires 0 <= i < |comps| => if comps[i].id == id then comps[i].(x := x, y := y) else comps[i])
  }

  /** A partial update: each present field overrides the component's own. */
  datatype Patch = Patch(
    x: Option<real>,
    y: Option<real>,
    rotation: Option<int>,
    value: Option<real>,
    labelText: Option<string>,
    isOpen: Option<bool>)

  function Pick<T>(o: Option<T>, dflt: T): T
  {
    if o.Some? then o.value else dflt
  }

  /** The component with the patch's fields spread over it. */
  function ApplyPatch(c: Component, p: Patch): (r: Component)
    ensures r.id == c.id && r.kind == c.kind
    ensures r.current == c.current && r.voltageDrop == c.voltageDrop
    ensures p.x.Some? ==> r.x == p.x.value
    ensures p.x.None? ==> r.x == c.x
    ensures p.y.Some? ==> r.y == p.y.value
    ensures p.y.None? ==> r.y == c.y
    ensures p.rotation.Some? ==> r.rotation == p.rotation.value
    ensures p.rotation.None? ==> r.rotation == c.rotation
    ensures p.labelText.Some? ==> r.labelText == p.labelText.value
    ensures p.labelText.None? ==> r.labelText == c.labelText
    ensures p.value.Some? ==> r.value == p.value.value
    ensures p.value.None? ==> r.value == c.value
    ensures p.isOpen.Some? ==> r.isOpen == Some(p.isOpen.value)
    ensures p.isOpen.None? ==> r.isOpen == c.isOpen
    ensures p == Patch(None, None, None, None, None, None) ==> r == c
  {
    c.(x := Pick(p.x, c.x), y := Pick(p.y, c.y), rotation := Pick(p.rotation, c.rotation),
       value := Pick(p.value, c.value), labelText := Pick(p.labelText, c.labelText),
       isOpen := if p.isOpen.Some? then Some(p.isOpen.value) else c.isOpen)
  }

  /** Applies the patch to the component with the given id only. */
  function UpdateComponent(comps: seq<Component>, id: string, p: Patch): (r: seq<Component>)
    ensures |r| == |comps|
    ensures forall i :: 0 <= i < |comps| && comps[i].id != id ==> r[i] == comps[i]
    ensures forall i :: 0 <= i < |comps| && comps[i].id == id ==> r[i] == ApplyPatch(comps[i], p)
  {
    seq(|comps|, i requires 0 <= i < |comps| => if comps[i].id == id then ApplyPatch(comps[i], p) else comps[i])
  }

  /** Moving and updating keep every id and kind in place, so the id
      invariants of the lists are untouched. */
  lemma {:induction false} MoveAndUpdateKeepIdsAndKinds(comps: seq<Component>, wires: seq<Wire>, id: string, x: real, y: real, p: Patch)
    ensures forall i :: 0 <= i < |comps| ==>
      MoveComponent(comps, id, x, y)[i].id == comps[i].id && MoveComponent(comps, id, x, y)[i].kind == comps[i].kind
    ensures forall i :: 0 <= i < |comps| ==>
      UpdateComponent(comps, id, p)[i].id == comps[i].id && UpdateComponent(comps, id, p)[i].kind == comps[i].kind
    ensures UniqueIds(comps) ==> UniqueIds(MoveComponent(comps, id, x, y)) && UniqueIds(UpdateComponent(comps, id, p))
    ensures NoDanglingWires(comps, wires) ==>
      NoDanglingWires(MoveComponent(comps, id, x, y), wires) && NoDanglingWires(UpdateComponent(comps, id, p), wires)
  {
    var m := MoveComponent(comps, id, x, y);
    var u := UpdateComponent(comps, id, p);
    if NoDanglingWires(comps, wires) {
      forall j | 0 <= j < |wires|
        ensures HasId(m, wires[j].source.comp) && HasId(m, wires[j].target.comp)
        ensures HasId(u, wires[j].source.comp) && HasId(u, wires[j].target.comp)
      {
        var a :| 0 <= a < |comps| && comps[a].id == wires[j].source.comp;
        var b :| 0 <= b < |comps| && comps[b].id == wires[j].target.comp;
        assert m[a].id == comps[a].id && m[b].id == comps[b].id;
        assert u[a].id == comps[a].id && u[b].id == comps[b].id;
      }
    }
  }

  /** The components other than `id`, in order. */
  function RemoveComponent(comps: seq<Component>, id: string): (r: seq<Component>)
    ensures |r| <= |comps|
    ensures forall c :: c in r <==> c in comps && c.id != id
  {
    if |comps| == 0 then []
    else (if comps[0].id != id then [comps[0]] else []) + RemoveComponent(comps[1..], id)
  }

  /** The wires with neither end on component `id`, in order. */
  function RemoveWiresOf(wires: seq<Wire>, id: string): (r: seq<Wire>)
    ensures |r| <= |wires|
    ensures forall w :: w in r <==> w in wires && w.source.comp != id && w.target.comp != id
  {
    if |wires| == 0 then []
    else
      (if wires[0].source.comp != id && wires[0].target.comp != id then [wires[0]] else [])
      + RemoveWiresOf(wires[1..], id)
  }

  /** Deleting a component removes it and every wire touching it. */
  function DeleteComponent(comps: seq<Component>, wires: seq<Wire>, id: string): (r: (seq<Component>, seq<Wire>))
    ensures !HasId(r.0, id)
    ensures forall c :: c in r.0 <==> c in comps && c.id != id
    ensures forall w :: w in r.1 <==> w in wires && w.source.comp != id && w.target.comp != id
  {
    (RemoveComponent(comps, id), RemoveWiresOf(wires, id))
  }

  /** The kept components keep their relative order: the result is a
      subsequence of the input. */
  predicate IsSubsequence<T(==)>(a: seq<T>, b: seq<T>)
    decreases |b|
  {
    |a| == 0 || (|b| > 0 && ((a[0] == b[0] && IsSubsequence(a[1..], b[1..])) || IsSubsequence(a, b[1..])))
  }

  lemma {:induction false} RemoveComponentKeepsOrder(comps: seq<Component>, id: string)
    ensures IsSubsequence(RemoveComponent(comps, id), comps)
  {
    if |comps| > 0 {
      RemoveComponentKeepsOrder(comps[1..], id);
      var r := RemoveComponent(comps, id);
      var rest := RemoveComponent(comps[1..], id);
      if comps[0].id != id {
        assert r == [comps[0]] + rest;
        assert r[0] == comps[0] && r[1..] == rest;
      } else {
        assert r == rest;
      }
    }
  }

  lemma {:induction false} RemoveWiresKeepsOrder(wires: seq<Wire>, id: string)
    ensures IsSubsequence(RemoveWiresOf(wires, id), wires)
  {
    if |wires| > 0 {
      RemoveWiresKeepsOrder(wires[1..], id);
      var r := RemoveWiresOf(wires, id);
      var rest := RemoveWiresOf(wires[1..], id);
      if wires[0].source.comp != id && wires[0].target.comp != id {
        assert r == [wires[0]] + rest;
        assert r[0] == wires[0] && r[1..] == rest;
      } else {
        assert r == rest;
      }
    }
  }

  /** Deleting keeps the list invariants: unique ids, no dangling wires, no
      self-loops and no duplicate wires. */
  lemma {:induction false} DeletePreservesInvariants(comps: seq<Component>, wires: seq<Wire>, id: string)
    requires UniqueIds(comps) && NoDanglingWires(comps, wires)
    ensures var r := DeleteComponent(comps, wires, id);
      UniqueIds(r.0) && NoDanglingWires(r.0, r.1)
    ensures var r := DeleteComponent(comps, wires, id);
      (NoSelfLoops(wires) ==> NoSelfLoops(r.1)) && (NoDuplicateWires(wires) ==> NoDuplicateWires(r.1))
  {
    var r := DeleteComponent(comps, wires, id);
    RemoveComponentKeepsOrder(comps, id);
    RemoveWiresKeepsOrder(wires, id);
    SubsequenceUnique(r.0, comps);
    SubsequenceNoDuplicates(r.1, wires);
    forall j | 0 <= j < |r.1|
      ensures HasId(r.0, r.1[j].source.comp) && HasId(r.0, r.1[j].target.comp)
    {
      var w := r.1[j];
      assert w in wires;
      var k :| 0 <= k < |wires| && wires[k] == w;
      var a :| 0 <= a < |comps| && comps[a].id == w.source.comp;
      var b :| 0 <= b < |comps| && comps[b].id == w.target.comp;
      assert comps[a] in r.0 && comps[b] in r.0;
    }
    if NoSelfLoops(wires) {
      forall j | 0 <= j < |r.1|
        ensures r.1[j].source.comp != r.1[j].target.comp
      {
        assert r.1[j] in wires;
      }
    }
  }

  lemma {:induction false} SubsequenceUnique(a: seq<Component>, b: seq<Component>)
    requires IsSubsequence(a, b) && UniqueIds(b)
    ensures UniqueIds(a)
    decreases |b|
  {
    if |a| > 0 {
      if a[0] == b[0] && IsSubsequence(a[1..], b[1..]) {
        SubsequenceUnique(a[1..], b[1..]);
        SubsequenceMembers(a[1..], b[1..]);
        forall j | 0 < j < |a|
          ensures a[0].id != a[j].id
        {
          assert a[j] == a[1..][j - 1];
          assert a[1..][j - 1] in a[1..];
          var k :| 0 <= k < |b[1..]| && b[1..][k] == a[j];
          assert b[k + 1] == a[j];
        }
        forall i, j | 0 < i < j < |a|
          ensures a[i].id != a[j].id
        {
          assert a[i] == a[1..][i - 1] && a[j] == a[1..][j - 1];
        }
      } else {
        SubsequenceUnique(a, b[1..]);
      }
    }
  }

  lemma {:induction false} SubsequenceMembers<T>(a: seq<T>, b: seq<T>)
    requires IsSubsequence(a, b)
    ensures forall x :: x in a ==> x in b
    decreases |b|
  {
    if |a| > 0 {
      if a[0] == b[0] && IsSubsequence(a[1..], b[1..]) {
        SubsequenceMembers(a[1..], b[1..]);
        assert forall x :: x in a ==> x == a[0] || x in a[1..];
      } else {
        SubsequenceMembers(a, b[1..]);
      }
    }
  }

  lemma {:induction false} SubsequenceNoDuplicates(a: seq<Wire>, b: seq<Wire>)
    requires IsSubsequence(a, b)
    ensures NoDuplicateWires(b) ==> NoDuplicateWires(a)
    decreases |b|
  {
    if |a| > 0 && NoDuplicateWires(b) {
      if a[0] == b[0] && IsSubsequence(a[1..], b[1..]) {
        SubsequenceNoDuplicates(a[1..], b[1..]);
        SubsequenceMembers(a[1..], b[1..]);
        forall j | 0 < j < |a|
          ensures !SameEnds(a[0], a[j])
        {
          assert a[j] == a[1..][j - 1];
          assert a[1..][j - 1] in a[1..];
          var k :| 0 <= k < |b[1..]| && b[1..][k] == a[j];
          assert b[k + 1] == a[j];
        }
        forall i, j | 0 < i < j < |a|
          ensures !SameEnds(a[i], a[j])
        {
          assert a[i] == a[1..][i - 1] && a[j] == a[1..][j - 1];
        }
      } else {
        SubsequenceNoDuplicates(a, b[1..]);
      }
    }
  }

  /** Some wire already joins pin (sId, sPin) and pin (tId, tPin), in
      either direction. */
  function WireExists(wires: seq<Wire>, sId: string, sPin: int, tId: string, tPin: int): (b: bool)
    ensures b <==> exists i :: 0 <= i < |wires| && SameEnds(wires[i], Wire("", Pin(sId, sPin), Pin(tId, tPin)))
  {
    if |wires| == 0 then false
    else
      var w := wires[0];
      if (w.source == Pin(sId, sPin) && w.target == Pin(tId, tPin))
         || (w.source == Pin(tId, tPin) && w.target == Pin(sId, sPin)) then
        assert SameEnds(wires[0], Wire("", Pin(sId, sPin), Pin(tId, tPin)));
        true
      else
        var b := WireExists(wires[1..], sId, sPin, tId, tPin);
        if b then
          var i :| 0 <= i < |wires[1..]| && SameEnds(wires[1..][i], Wire("", Pin(sId, sPin), Pin(tId, tPin)));
          assert wires[i + 1] == wires[1..][i];
          b
        else b
  }

  /** Connecting two pins: refused for two pins of one component and for a
      pin pair some wire already joins; otherwise exactly one wire is
      appended. */
  function Connect(wires: seq<Wire>, newId: string, sId: string, sPin: int, tId: string, tPin: int): (r: seq<Wire>)
    ensures sId == tId ==> r == wires
    ensures WireExists(wires, sId, sPin, tId, tPin) ==> r == wires
    ensures sId != tId && !WireExists(wires, sId, sPin, tId, tPin) ==>
      r == wires + [Wire(newId, Pin(sId, sPin), Pin(tId, tPin))]
  {
    if sId == tId then wires
    else if WireExists(wires, sId, sPin, tId, tPin) then wires
    else wires + [Wire(newId, Pin(sId, sPin), Pin(tId, tPin))]
  }

  /** Connecting keeps the wire list free of self-loops and of duplicate
      pin pairs, and free of dangling ends when both ids are present. */
  lemma {:induction false} ConnectPreservesInvariants(comps: seq<Component>, wires: seq<Wire>, newId: string, sId: string, sPin: int, tId: string, tPin: int)
    ensures NoSelfLoops(wires) ==> NoSelfLoops(Connect(wires, newId, sId, sPin, tId, tPin))
    ensures NoDuplicateWires(wires) ==> NoDuplicateWires(Connect(wires, newId, sId, sPin, tId, tPin))
    ensures NoDanglingWires(comps, wires) && HasId(comps, sId) && HasId(comps, tId) ==>
      NoDanglingWires(comps, Connect(wires, newId, sId, sPin, tId, tPin))
  {
    var r := Connect(wires, newId, sId, sPin, tId, tPin);
    if sId != tId && !WireExists(wires, sId, sPin, tId, tPin) && NoDuplicateWires(wires) {
      var w := Wire(newId, Pin(sId, sPin), Pin(tId, tPin));
      forall i, j | 0 <= i < j < |r|
        ensures !SameEnds(r[i], r[j])
      {
        if j == |wires| {
          assert !SameEnds(wires[i], Wire("", Pin(sId, sPin), Pin(tId, tPin)));
        }
      }
    }
  }

  /** After a solve that reports an error, every component shows 0 current
      and 0 voltage drop; the list is replaced only when some reading was
      non-zero. */
  function ZeroReadings(comps: seq<Component>): (r: seq<Component>)
    ensures |r| == |comps|
    ensures forall i :: 0 <= i < |r| ==> ReadingOrZero(r[i].current) == 0.0 && ReadingOrZero(r[i].voltageDrop) == 0.0
    ensures forall i :: 0 <= i < |r| ==> SameExceptReadings(r[i], comps[i])
    ensures (forall i :: 0 <= i < |comps| ==> ReadingOrZero(comps[i].current) == 0.0 && ReadingOrZero(comps[i].voltageDrop) == 0.0) ==> r == comps
  {
    var needsZero := exists i :: 0 <= i < |comps| && (ReadingOrZero(comps[i].current) != 0.0 || ReadingOrZero(comps[i].voltageDrop) != 0.0);
    if needsZero then
      seq(|comps|, i requires 0 <= i < |comps| => comps[i].(current := Some(0.0), voltageDrop := Some(0.0)))
    else comps
  }

  /** Moving, updating and clearing readings never change the structural
      classification: it reads only ids, kinds and wires. */
  lemma {:induction false} EditsKeepTopology(comps: seq<Component>, wires: seq<Wire>, id: string, x: real, y: real, p: Patch)
    ensures AnalyzeTopology(MoveComponent(comps, id, x, y), wires) == AnalyzeTopology(comps, wires)
    ensures AnalyzeTopology(UpdateComponent(comps, id, p), wires) == AnalyzeTopology(comps, wires)
    ensures AnalyzeTopology(ZeroReadings(comps), wires) == AnalyzeTopology(comps, wires)
  {
    MoveAndUpdateKeepIdsAndKinds(comps, wires, id, x, y, p);
    TopologyIgnoresValues(MoveComponent(comps, id, x, y), comps, wires);
    TopologyIgnoresValues(UpdateComponent(comps, id, p), comps, wires);
    var z := ZeroReadings(comps);
    assert SameSkeleton(z, comps) by {
      forall i | 0 <= i < |comps| ensures z[i].id == comps[i].id && z[i].kind == comps[i].kind {
        assert SameExceptReadings(z[i], comps[i]);
      }
    }
    TopologyIgnoresValues(z, comps, wires);
  }
}
