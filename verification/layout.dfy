/** Conversion of a recognised diagram layout (grid-placed items with loosely
    typed names, plus connections by item id) into components and wires. */
module Layout {
  import opened Circuit
  import opened Text

  /** One recognised item: its id, a free-form type name and a grid cell. */
  datatype LayoutItem = LayoutItem(id: string, kind: string, row: real, col: real)

  /** One recognised connection, by item id. */
  datatype Connection = Connection(source: string, target: string)

  datatype LayoutData = LayoutData(items: seq<LayoutItem>, connections: seq<Connection>)

  const GridSizeX: real := 150.0
  const GridSizeY: real := 120.0
  const OffsetX: real := 150.0
  const OffsetY: real := 100.0

  /** Neighbours closer than this in x count as vertically stacked. */
  const VerticalTolerance: real := 50.0

  /** A normalisation rule: any of the keywords selects the kind. */
  datatype Rule = Rule(keywords: seq<string>, kind: ComponentType)

  /** The keyword rules, in the order they are tried. */
  const TypeRules: seq<Rule> := [
    Rule(["BATTERY", "SOURCE", "POWER"], BATTERY),
    Rule(["RHEOSTAT", "VARIABLE"], RHEOSTAT),
    Rule(["BULB", "LAMP", "LIGHT"], BULB),
    Rule(["SWITCH", "KEY"], SWITCH),
    Rule(["AMMETER"], AMMETER),
    Rule(["VOLT"], VOLTMETER),
    Rule(["RESISTOR"], RESISTOR)
  ]

  /** Some keyword of the list occurs in `u`. */
  predicate AnyKeyword(u: string, keywords: seq<string>)
  {
    exists k :: 0 <= k < |keywords| && Contains(u, keywords[k])
  }

  /** The kind of the first rule with a keyword occurring in `u`. */
  function FirstMatch(u: string, rules: seq<Rule>): (r: Option<ComponentType>)
    ensures r.Some? ==> exists k :: 0 <= k < |rules| && r.value == rules[k].kind
  {
    if |rules| == 0 then None
    else if AnyKeyword(u, rules[0].keywords) then Some(rules[0].kind)
    else FirstMatch(u, rules[1..])
  }

  /** First-match semantics: the rule chosen is the first whose keywords occur. */
  lemma {:induction false} FirstMatchIsFirst(u: string, rules: seq<Rule>, k: nat)
    requires k < |rules| && AnyKeyword(u, rules[k].keywords)
    requires forall j :: 0 <= j < k ==> !AnyKeyword(u, rules[j].keywords)
    ensures FirstMatch(u, rules) == Some(rules[k].kind)
  {
    if k > 0 {
      assert !AnyKeyword(u, rules[0].keywords);
      FirstMatchIsFirst(u, rules[1..], k - 1);
    }
  }

  /** No rule matching means no kind is chosen. */
  lemma {:induction false} FirstMatchNone(u: string, rules: seq<Rule>)
    requires forall j :: 0 <= j < |rules| ==> !AnyKeyword(u, rules[j].keywords)
    ensures FirstMatch(u, rules) == None
  {
    if |rules| > 0 {
      assert !AnyKeyword(u, rules[0].keywords);
      FirstMatchNone(u, rules[1..]);
    }
  }

  /** The kind a free-form type name normalises to: keyword search on the
      upper-cased name, falling back to RESISTOR. */
  function NormalizeType(raw: string): (t: ComponentType)
    ensures t != WIRE
  {
    match FirstMatch(Upper(raw), TypeRules)
    case Some(t) => t
    case None => RESISTOR
  }

  /** The name is matched case-insensitively (for ASCII letters). */
  lemma {:induction false} NormalizeIgnoresCase(raw: string)
    ensures NormalizeType(Upper(raw)) == NormalizeType(raw)
  {
    UpperIdempotent(raw);
  }

  /** The rule table, stated rule by rule: the first rule with an occurring
      keyword decides, and a name with none of the keywords is a RESISTOR. */
  lemma {:induction false} NormalizeTypeByPriority(raw: string, k: nat)
    requires k < |TypeRules| && AnyKeyword(Upper(raw), TypeRules[k].keywords)
    requires forall j :: 0 <= j < k ==> !AnyKeyword(Upper(raw), TypeRules[j].keywords)
    ensures NormalizeType(raw) == TypeRules[k].kind
  {
    FirstMatchIsFirst(Upper(raw), TypeRules, k);
  }

  lemma {:induction false} NormalizeTypeFallback(raw: string)
    requires forall j :: 0 <= j < |TypeRules| ==> !AnyKeyword(Upper(raw), TypeRules[j].keywords)
    ensures NormalizeType(raw) == RESISTOR
  {
    FirstMatchNone(Upper(raw), TypeRules);
  }

  /** A battery keyword anywhere wins over every other keyword. */
  lemma {:induction false} BatteryKeywordsWin(raw: string)
    requires Contains(Upper(raw), "BATTERY") || Contains(Upper(raw), "SOURCE") || Contains(Upper(raw), "POWER")
    ensures NormalizeType(raw) == BATTERY
  {
    var u := Upper(raw);
    if Contains(u, "BATTERY") {
      assert Contains(u, TypeRules[0].keywords[0]);
    } else if Contains(u, "SOURCE") {
      assert Contains(u, TypeRules[0].keywords[1]);
    } else {
      assert Contains(u, TypeRules[0].keywords[2]);
    }
    FirstMatchIsFirst(u, TypeRules, 0);
  }

  /** No rule before position k has a keyword occurring in `u`. */
  lemma {:induction false} NoEarlierRule(u: string, k: nat)
    requires k <= |TypeRules|
    requires forall j, m :: 0 <= j < k && 0 <= m < |TypeRules[j].keywords| ==> !Contains(u, TypeRules[j].keywords[m])
    ensures forall j :: 0 <= j < k ==> !AnyKeyword(u, TypeRules[j].keywords)
  {
  }

  lemma {:induction false} CanonicalBattery()
    ensures NormalizeType("BATTERY") == BATTERY
  {
    var u := "BATTERY";
    assert Upper(u) == u;
    assert Contains(u, TypeRules[0].keywords[0]);
    FirstMatchIsFirst(u, TypeRules, 0);
  }

  lemma {:induction false} CanonicalRheostat()
    ensures NormalizeType("RHEOSTAT") == RHEOSTAT
  {
    var u := "RHEOSTAT";
    assert Upper(u) == u;
    NoEarlierRule(u, 1);
    assert Contains(u, TypeRules[1].keywords[0]);
    FirstMatchIsFirst(u, TypeRules, 1);
  }

  lemma {:induction false} CanonicalBulb()
    ensures NormalizeType("BULB") == BULB
  {
    var u := "BULB";
    assert Upper(u) == u;
    NoEarlierRule(u, 2);
    assert Contains(u, TypeRules[2].keywords[0]);
    FirstMatchIsFirst(u, TypeRules, 2);
  }

  lemma {:induction false} CanonicalSwitch()
    ensures NormalizeType("SWITCH") == SWITCH
  {
    var u := "SWITCH";
    assert Upper(u) == u;
    NoEarlierRule(u, 3);
    assert Contains(u, TypeRules[3].keywords[0]);
    FirstMatchIsFirst(u, TypeRules, 3);
  }

  lemma {:induction false} CanonicalAmmeter()
    ensures NormalizeType("AMMETER") == AMMETER
  {
    var u := "AMMETER";
    assert Upper(u) == u;
    NoEarlierRule(u, 4);
    assert Contains(u, TypeRules[4].keywords[0]);
    FirstMatchIsFirst(u, TypeRules, 4);
  }

  lemma {:induction false} CanonicalVoltmeter()
    ensures NormalizeType("VOLTMETER") == VOLTMETER
  {
    var u := "VOLTMETER";
    assert Upper(u) == u;
    NoEarlierRule(u, 5);
    assert Contains(u, TypeRules[5].keywords[0]);
    FirstMatchIsFirst(u, TypeRules, 5);
  }

  lemma {:induction false} CanonicalResistor()
    ensures NormalizeType("RESISTOR") == RESISTOR
  {
    var u := "RESISTOR";
    assert Upper(u) == u;
    NoEarlierRule(u, 6);
    assert Contains(u, TypeRules[6].keywords[0]);
    FirstMatchIsFirst(u, TypeRules, 6);
  }

  /** Every canonical type name but WIRE normalises to its own type. */
  lemma {:induction false} NormalizeCanonicalName(t: ComponentType)
    requires t != WIRE
    ensures NormalizeType(TypeName(t)) == t
  {
    match t {
      case BATTERY => CanonicalBattery();
      case RHEOSTAT => CanonicalRheostat();
      case BULB => CanonicalBulb();
      case SWITCH => CanonicalSwitch();
      case AMMETER => CanonicalAmmeter();
      case VOLTMETER => CanonicalVoltmeter();
      case RESISTOR => CanonicalResistor();
    }
  }

  /** Label of the item at position `index`: the initial of its type name
      followed by the 1-based position. */
  function LayoutLabel(t: ComponentType, index: nat): string
  {
    [TypeName(t)[0]] + ShowNat(index + 1)
  }

  /** The component made for the item at position `index`, before rotation. */
  function ConvertItem(item: LayoutItem, index: nat): Component
  {
    var t := NormalizeType(item.kind);
    Component(item.id, t, OffsetX + item.col * GridSizeX, OffsetY + item.row * GridSizeY,
              0, DefaultValue(t), LayoutLabel(t, index), DefaultIsOpen(t), None, None)
  }

  /** The first component carrying `id`, if any. */
  function FindById(comps: seq<Component>, id: string): (r: Option<Component>)
    ensures r.None? <==> !HasId(comps, id)
    ensures r.Some? ==> r.value.id == id
  {
    if |comps| == 0 then None
    else if comps[0].id == id then Some(comps[0])
    else FindById(comps[1..], id)
  }

  /** Lookup returns the first component with the id. */
  lemma {:induction false} FindByIdFirst(comps: seq<Component>, i: nat)
    requires i < |comps| && forall j :: 0 <= j < i ==> comps[j].id != comps[i].id
    ensures FindById(comps, comps[i].id) == Some(comps[i])
  {
    if i > 0 {
      FindByIdFirst(comps[1..], i - 1);
    }
  }

  /** Id of the wire made for the connection at position `k`. */
  function WireId(k: nat): string
  {
    "wire_" + ShowNat(k)
  }

  lemma {:induction false} WireIdInjective(a: nat, b: nat)
    ensures WireId(a) == WireId(b) ==> a == b
  {
    if WireId(a) == WireId(b) {
      assert ShowNat(a) == WireId(a)[5..];
      assert ShowNat(b) == WireId(b)[5..];
      ShowNatInjective(a, b);
    }
  }

  /** Pin pair for a wire from `s` to `t`: right pin of the source to the
      left pin of the target, flipped when the source lies further right. */
  function PinChoice(s: Component, t: Component): (r: (int, int))
    ensures r.0 + r.1 == 1 && 0 <= r.0 <= 1
    ensures r == (0, 1) <==> s.x > t.x
  {
    if s.x > t.x then (0, 1) else (1, 0)
  }

  /** Both ends of the connection name a converted component. */
  predicate Resolves(comps: seq<Component>, conn: Connection)
  {
    HasId(comps, conn.source) && HasId(comps, conn.target)
  }

  /** The wire made for the connection at position `k`, when both of its
      ends resolve: its ends are the named components, with the pin pair
      chosen from their x positions. */
  function WireOf(comps: seq<Component>, conn: Connection, k: nat): (o: Option<Wire>)
    ensures o.Some? <==> Resolves(comps, conn)
    ensures o.Some? ==> o.value.id == WireId(k)
    ensures o.Some? ==> o.value.source.comp == conn.source && o.value.target.comp == conn.target
    ensures o.Some? ==> o.value.source.index + o.value.target.index == 1 && 0 <= o.value.source.index <= 1
  {
    match (FindById(comps, conn.source), FindById(comps, conn.target))
    case (Some(s), Some(t)) =>
      Some(Wire(WireId(k), Pin(s.id, PinChoice(s, t).0), Pin(t.id, PinChoice(s, t).1)))
    case _ => None
  }

  /** The wires for the connections numbered from `offset`, in order;
      unresolved connections are dropped. */
  function MakeWires(comps: seq<Component>, conns: seq<Connection>, offset: nat): (r: seq<Wire>)
    ensures |r| <= |conns|
    decreases |conns|
  {
    if |conns| == 0 then []
    else
      var w := WireOf(comps, conns[0], offset);
      (if w.Some? then [w.value] else []) + MakeWires(comps, conns[1..], offset + 1)
  }

  /** Every wire made comes from one connection, and carries its index. */
  lemma {:induction false} MakeWiresSound(comps: seq<Component>, conns: seq<Connection>, offset: nat, i: nat)
    requires i < |MakeWires(comps, conns, offset)|
    ensures exists k :: 0 <= k < |conns| && WireOf(comps, conns[k], offset + k) == Some(MakeWires(comps, conns, offset)[i])
    decreases |conns|
  {
    var w := WireOf(comps, conns[0], offset);
    var r := MakeWires(comps, conns, offset);
    var rest := MakeWires(comps, conns[1..], offset + 1);
    if w.Some? && i == 0 {
      assert WireOf(comps, conns[0], offset + 0) == Some(r[i]);
    } else {
      var j := if w.Some? then i - 1 else i;
      assert r[i] == rest[j];
      MakeWiresSound(comps, conns[1..], offset + 1, j);
      var k :| 0 <= k < |conns[1..]| && WireOf(comps, conns[1..][k], offset + 1 + k) == Some(rest[j]);
      assert WireOf(comps, conns[k + 1], offset + (k + 1)) == Some(r[i]);
    }
  }

  /** Every resolving connection yields its wire. */
  lemma {:induction false} MakeWiresComplete(comps: seq<Component>, conns: seq<Connection>, offset: nat, k: nat)
    requires k < |conns| && Resolves(comps, conns[k])
    ensures WireOf(comps, conns[k], offset + k).value in MakeWires(comps, conns, offset)
    decreases |conns|
  {
    if k > 0 {
      MakeWiresComplete(comps, conns[1..], offset + 1, k - 1);
      assert conns[1..][k - 1] == conns[k];
    }
  }

  /** Prepending a wire with a fresh id keeps the ids distinct. */
  lemma {:induction false} DistinctCons(w: Wire, rest: seq<Wire>)
    requires DistinctWireIds(rest)
    requires forall j :: 0 <= j < |rest| ==> rest[j].id != w.id
    ensures DistinctWireIds([w] + rest)
  {
    var r := [w] + rest;
    forall i, j | 0 <= i < j < |r|
      ensures r[i].id != r[j].id
    {
      if i > 0 {
        assert r[i] == rest[i - 1] && r[j] == rest[j - 1];
      }
    }
  }

  /** A wire numbered from `offset` never carries an id numbered below it. */
  lemma {:induction false} MakeWiresIdsAbove(comps: seq<Component>, conns: seq<Connection>, offset: nat, low: nat)
    requires low < offset
    ensures forall j :: 0 <= j < |MakeWires(comps, conns, offset)| ==> MakeWires(comps, conns, offset)[j].id != WireId(low)
  {
    var r := MakeWires(comps, conns, offset);
    forall j | 0 <= j < |r|
      ensures r[j].id != WireId(low)
    {
      MakeWiresSound(comps, conns, offset, j);
      var k :| 0 <= k < |conns| && WireOf(comps, conns[k], offset + k) == Some(r[j]);
      WireIdInjective(low, offset + k);
    }
  }

  /** The wires made for distinct connections carry distinct ids. */
  lemma {:induction false} MakeWiresDistinctIds(comps: seq<Component>, conns: seq<Connection>, offset: nat)
    ensures DistinctWireIds(MakeWires(comps, conns, offset))
    decreases |conns|
  {
    if |conns| > 0 {
      MakeWiresDistinctIds(comps, conns[1..], offset + 1);
      var w := WireOf(comps, conns[0], offset);
      if w.Some? {
        MakeWiresIdsAbove(comps, conns[1..], offset + 1, offset);
        DistinctCons(w.value, MakeWires(comps, conns[1..], offset + 1));
      } else {
        assert MakeWires(comps, conns, offset) == MakeWires(comps, conns[1..], offset + 1);
      }
    }
  }

  /** The wires with an end on component `id`, in order. */
  function Touching(wires: seq<Wire>, id: string): (r: seq<Wire>)
    ensures forall w :: w in r <==> w in wires && (w.source.comp == id || w.target.comp == id)
    ensures |r| <= |wires|
  {
    if |wires| == 0 then []
    else
      (if wires[0].source.comp == id || wires[0].target.comp == id then [wires[0]] else [])
      + Touching(wires[1..], id)
  }

  /** The component id at the far end of `w`, seen from component `id`. */
  function OtherEnd(w: Wire, id: string): string
  {
    if w.source.comp == id then w.target.comp else w.source.comp
  }

  /** The neighbour across `w` exists and lies within the tolerance of `c` in x. */
  predicate StackedNeighbour(comps: seq<Component>, c: Component, w: Wire)
  {
    var n := FindById(comps, OtherEnd(w, c.id));
    n.Some? && Abs(n.value.x - c.x) < VerticalTolerance
  }

  /** The rotation after the post-pass: a component touched by exactly two
      wires whose neighbours both sit within the tolerance in x is turned
      upright (90); every other component keeps its rotation. */
  function FinalRotation(comps: seq<Component>, wires: seq<Wire>, c: Component): (rot: int)
  {
    var ws := Touching(wires, c.id);
    if |ws| == 2 then
      match (FindById(comps, OtherEnd(ws[0], c.id)), FindById(comps, OtherEnd(ws[1], c.id)))
      case (Some(a), Some(b)) =>
        if Abs(a.x - c.x) < VerticalTolerance && Abs(b.x - c.x) < VerticalTolerance then 90 else c.rotation
      case _ => c.rotation
    else c.rotation
  }

  /** The rotation rule: upright exactly when two wires touch the component
      and both neighbours exist and are stacked with it; unchanged otherwise. */
  lemma {:induction false} FinalRotationRule(comps: seq<Component>, wires: seq<Wire>, c: Component)
    requires c.rotation != 90
    ensures FinalRotation(comps, wires, c) == 90 <==>
      |Touching(wires, c.id)| == 2 && forall w :: w in Touching(wires, c.id) ==> StackedNeighbour(comps, c, w)
    ensures FinalRotation(comps, wires, c) != 90 ==> FinalRotation(comps, wires, c) == c.rotation
  {
    var ws := Touching(wires, c.id);
    if |ws| == 2 {
      assert forall w :: w in ws <==> w == ws[0] || w == ws[1];
    }
  }

  /** The components made for the items, before the rotation pass. */
  function ConvertItems(items: seq<LayoutItem>): (cs: seq<Component>)
    ensures |cs| == |items|
    ensures forall i :: 0 <= i < |items| ==> cs[i] == ConvertItem(items[i], i)
  {
    seq(|items|, i requires 0 <= i < |items| => ConvertItem(items[i], i))
  }

  /** The rotation post-pass over the converted components. */
  function RotationPass(base: seq<Component>, wires: seq<Wire>): (cs: seq<Component>)
    ensures |cs| == |base|
    ensures forall i :: 0 <= i < |base| ==> cs[i] == base[i].(rotation := FinalRotation(base, wires, base[i]))
  {
    seq(|base|, i requires 0 <= i < |base| => base[i].(rotation := FinalRotation(base, wires, base[i])))
  }

  /** The whole conversion: components in item order, the wires of the
      resolving connections, then the rotation post-pass. */
  function ConvertLayout(data: LayoutData): (seq<Component>, seq<Wire>)
  {
    var base := ConvertItems(data.items);
    var wires := MakeWires(base, data.connections, 0);
    (RotationPass(base, wires), wires)
  }

  /** What the conversion produces: one component per item, in order, with
      the item's id, the normalised kind (never WIRE), grid coordinates,
      default value and switch state, positional label, rotation 0 or 90
      and no readings; wires with distinct ids whose ends all resolve and
      whose pin indices are 0 and 1 in some order. */
  lemma {:induction false} ConvertLayoutShape(data: LayoutData)
    ensures var r := ConvertLayout(data);
      && |r.0| == |data.items|
      && (forall i :: 0 <= i < |r.0| ==>
        && r.0[i].id == data.items[i].id
        && r.0[i].kind == NormalizeType(data.items[i].kind)
        && r.0[i].kind != WIRE
        && r.0[i].x == OffsetX + data.items[i].col * GridSizeX
        && r.0[i].y == OffsetY + data.items[i].row * GridSizeY
        && r.0[i].value == DefaultValue(r.0[i].kind)
        && r.0[i].isOpen == DefaultIsOpen(r.0[i].kind)
        && r.0[i].labelText == LayoutLabel(r.0[i].kind, i)
        && (r.0[i].rotation == 0 || r.0[i].rotation == 90)
        && r.0[i].current.None? && r.0[i].voltageDrop.None?)
      && NoDanglingWires(r.0, r.1)
      && DistinctWireIds(r.1)
      && (forall j :: 0 <= j < |r.1| ==>
        r.1[j].source.index + r.1[j].target.index == 1 && 0 <= r.1[j].source.index <= 1)
  {
    var base := ConvertItems(data.items);
    var wires := MakeWires(base, data.connections, 0);
    var comps := RotationPass(base, wires);
    MakeWiresDistinctIds(base, data.connections, 0);
    WiresResolve(base, comps, data.connections, wires);
  }

  /** The wires made from a component list resolve in any list with the same ids. */
  lemma {:induction false} WiresResolve(base: seq<Component>, comps: seq<Component>, conns: seq<Connection>, wires: seq<Wire>)
    requires wires == MakeWires(base, conns, 0)
    requires |comps| == |base| && forall i :: 0 <= i < |base| ==> comps[i].id == base[i].id
    ensures NoDanglingWires(comps, wires)
    ensures forall j :: 0 <= j < |wires| ==>
      wires[j].source.index + wires[j].target.index == 1 && 0 <= wires[j].source.index <= 1
  {
    forall j | 0 <= j < |wires|
      ensures HasId(comps, wires[j].source.comp) && HasId(comps, wires[j].target.comp)
      ensures wires[j].source.index + wires[j].target.index == 1 && 0 <= wires[j].source.index <= 1
    {
      MakeWiresSound(base, conns, 0, j);
      var k :| 0 <= k < |conns| && WireOf(base, conns[k], 0 + k) == Some(wires[j]);
      var a :| 0 <= a < |base| && base[a].id == conns[k].source;
      var b :| 0 <= b < |base| && base[b].id == conns[k].target;
      assert comps[a].id == wires[j].source.comp;
      assert comps[b].id == wires[j].target.comp;
    }
  }

  /** Lookup by id only sees ids and x positions, so it agrees on two lists
      that share them. */
  lemma {:induction false} FindByIdSameShape(a: seq<Component>, b: seq<Component>, id: string)
    requires SameShape(a, b)
    ensures FindById(a, id).Some? == FindById(b, id).Some?
    ensures FindById(a, id).Some? ==> FindById(a, id).value.x == FindById(b, id).value.x
  {
    if |a| > 0 && a[0].id != id {
      FindByIdSameShape(a[1..], b[1..], id);
    }
  }

  /** Two component lists agree on ids and x positions. */
  predicate SameShape(a: seq<Component>, b: seq<Component>)
  {
    |a| == |b| && forall i :: 0 <= i < |a| ==> a[i].id == b[i].id && a[i].x == b[i].x
  }

  lemma {:induction false} WirePerConnectionGeneral(base: seq<Component>, comps: seq<Component>, wires: seq<Wire>, conns: seq<Connection>, k: nat)
    requires k < |conns| && SameShape(comps, base) && wires == MakeWires(base, conns, 0)
    ensures (exists j :: 0 <= j < |wires| && wires[j].id == WireId(k)) <==> Resolves(comps, conns[k])
    ensures forall j :: 0 <= j < |wires| && wires[j].id == WireId(k) ==>
      && wires[j].source.comp == conns[k].source && wires[j].target.comp == conns[k].target
      && (wires[j].source.index == 0 <==> FindById(comps, conns[k].source).value.x > FindById(comps, conns[k].target).value.x)
  {
    var conn := conns[k];
    assert Resolves(comps, conn) == Resolves(base, conn);
    if Resolves(base, conn) {
      MakeWiresComplete(base, conns, 0, k);
      var w := WireOf(base, conn, 0 + k).value;
      var j :| 0 <= j < |wires| && wires[j] == w;
      assert wires[j].id == WireId(k);
    }
    forall j | 0 <= j < |wires| && wires[j].id == WireId(k)
      ensures Resolves(comps, conn)
      ensures wires[j].source.comp == conn.source && wires[j].target.comp == conn.target
      ensures wires[j].source.index == 0 <==> FindById(comps, conn.source).value.x > FindById(comps, conn.target).value.x
    {
      MakeWiresSound(base, conns, 0, j);
      var k' :| 0 <= k' < |conns| && WireOf(base, conns[k'], 0 + k') == Some(wires[j]);
      WireIdInjective(k, k');
      FindByIdSameShape(comps, base, conn.source);
      FindByIdSameShape(comps, base, conn.target);
    }
  }

  /** One wire per resolving connection: the connection at position k
      yields a wire with id `wire_k` exactly when both its ends name a
      component; that wire joins the named components, using pin 0 of the
      source exactly when the source lies to the right of the target. */
  lemma {:induction false} ConvertedWirePerConnection(data: LayoutData, k: nat)
    requires k < |data.connections|
    ensures var r := ConvertLayout(data);
      (exists j :: 0 <= j < |r.1| && r.1[j].id == WireId(k)) <==> Resolves(r.0, data.connections[k])
    ensures var r := ConvertLayout(data); var conn := data.connections[k];
      forall j :: 0 <= j < |r.1| && r.1[j].id == WireId(k) ==>
        && r.1[j].source.comp == conn.source && r.1[j].target.comp == conn.target
        && (r.1[j].source.index == 0 <==> FindById(r.0, conn.source).value.x > FindById(r.0, conn.target).value.x)
  {
    var base := ConvertItems(data.items);
    var wires := MakeWires(base, data.connections, 0);
    assert ConvertLayout(data).0 == RotationPass(base, wires) && ConvertLayout(data).1 == wires;
    assert SameShape(ConvertLayout(data).0, base);
    WirePerConnectionGeneral(base, ConvertLayout(data).0, ConvertLayout(data).1, data.connections, k);
  }

  lemma {:induction false} RotationNeighbours(base: seq<Component>, comps: seq<Component>, wires: seq<Wire>, c: Component, b: Component)
    requires SameShape(comps, base) && NoDanglingWires(base, wires)
    requires c.id == b.id && c.x == b.x
    ensures forall w :: w in Touching(wires, c.id) ==> FindById(comps, OtherEnd(w, c.id)).Some?
    ensures forall w :: w in Touching(wires, c.id) ==> StackedNeighbour(comps, c, w) == StackedNeighbour(base, b, w)
  {
    forall w | w in Touching(wires, c.id)
      ensures FindById(comps, OtherEnd(w, c.id)).Some?
      ensures StackedNeighbour(comps, c, w) == StackedNeighbour(base, b, w)
    {
      var j :| 0 <= j < |wires| && wires[j] == w;
      assert HasId(base, w.source.comp) && HasId(base, w.target.comp);
      FindByIdSameShape(comps, base, OtherEnd(w, c.id));
    }
  }

  lemma {:induction false} RotationGeneral(base: seq<Component>, conns: seq<Connection>, i: nat)
    requires i < |base| && base[i].rotation == 0
    ensures var wires := MakeWires(base, conns, 0); var comps := RotationPass(base, wires); var c := comps[i];
      && (forall w :: w in Touching(wires, c.id) ==> FindById(comps, OtherEnd(w, c.id)).Some?)
      && (c.rotation == 90 <==> |Touching(wires, c.id)| == 2 && forall w :: w in Touching(wires, c.id) ==> StackedNeighbour(comps, c, w))
      && (c.rotation != 90 ==> c.rotation == 0)
  {
    var wires := MakeWires(base, conns, 0);
    var comps := RotationPass(base, wires);
    var c := comps[i];
    var b := base[i];
    assert SameShape(comps, base);
    WiresResolve(base, base, conns, wires);
    RotationNeighbours(base, comps, wires, c, b);
    FinalRotationRule(base, wires, b);
  }

  /** The rotation rule on a converted layout: every neighbour resolves,
      so a component ends upright exactly when two wires touch it and both
      neighbours are stacked with it in x; otherwise it stays at 0. */
  lemma {:induction false} ConvertedRotation(data: LayoutData, i: nat)
    requires i < |data.items|
    ensures var r := ConvertLayout(data); var c := r.0[i];
      && (forall w :: w in Touching(r.1, c.id) ==> FindById(r.0, OtherEnd(w, c.id)).Some?)
      && (c.rotation == 90 <==> |Touching(r.1, c.id)| == 2 && forall w :: w in Touching(r.1, c.id) ==> StackedNeighbour(r.0, c, w))
      && (c.rotation != 90 ==> c.rotation == 0)
  {
    RotationGeneral(ConvertItems(data.items), data.connections, i);
  }
}
