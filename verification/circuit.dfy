/** The component/wire data model shared by the solver, the topology
    classifier, the layout converter and the editing operations. */
module Circuit {

  datatype Option<+T> = None | Some(value: T)

  /** The closed set of component kinds. WIRE exists as a tag but is never
      produced by the editors or the layout converter. */
  datatype ComponentType =
    | BATTERY
    | RESISTOR
    | RHEOSTAT
    | BULB
    | SWITCH
    | VOLTMETER
    | AMMETER
    | WIRE

  /** A placed two-terminal component. `current` and `voltageDrop` are the
      solver's outputs; `None` stands for an absent (undefined) field. */
  datatype Component = Component(
    id: string,
    kind: ComponentType,
    x: real,
    y: real,
    rotation: int,
    value: real,
    labelText: string,
    isOpen: Option<bool>,
    current: Option<real>,
    voltageDrop: Option<real>)

  /** A terminal: a component id and a pin index. Wires may name any index,
      but only indices 0 and 1 of a present component are real terminals. */
  datatype Pin = Pin(comp: string, index: int)

  datatype Wire = Wire(id: string, source: Pin, target: Pin)

  /** The upper-case tag name of a component type. */
  function TypeName(t: ComponentType): (n: string)
    ensures |n| > 0
  {
    match t
    case BATTERY => "BATTERY"
    case RESISTOR => "RESISTOR"
    case RHEOSTAT => "RHEOSTAT"
    case BULB => "BULB"
    case SWITCH => "SWITCH"
    case VOLTMETER => "VOLTMETER"
    case AMMETER => "AMMETER"
    case WIRE => "WIRE"
  }

  /** Magnitude of a real number. */
  function Abs(r: real): real
  {
    if r < 0.0 then -r else r
  }

  /** Default value of a freshly created component: 12 V for a battery,
      10 ohms for a resistor or rheostat, 0 otherwise. */
  function DefaultValue(t: ComponentType): (v: real)
    ensures v == 12.0 <==> t == BATTERY
    ensures v == 10.0 <==> t in {RESISTOR, RHEOSTAT}
    ensures v == 0.0 <==> t !in {BATTERY, RESISTOR, RHEOSTAT}
  {
    if t == BATTERY then 12.0 else if t == RESISTOR || t == RHEOSTAT then 10.0 else 0.0
  }

  /** Initial switch state: a new switch starts open; other kinds carry no flag. */
  function DefaultIsOpen(t: ComponentType): (o: Option<bool>)
    ensures o.Some? <==> t == SWITCH
    ensures o.Some? ==> o.value
  {
    if t == SWITCH then Some(true) else None
  }

  /** The reading a component shows: an absent reading counts as 0. */
  function ReadingOrZero(o: Option<real>): real
  {
    if o.Some? then o.value else 0.0
  }

  /** Component ids are pairwise distinct. */
  predicate UniqueIds(comps: seq<Component>)
  {
    forall i, j :: 0 <= i < j < |comps| ==> comps[i].id != comps[j].id
  }

  /** Some component carries the given id. */
  predicate HasId(comps: seq<Component>, id: string)
  {
    exists i :: 0 <= i < |comps| && comps[i].id == id
  }

  /** The sub-list of batteries, in list order. */
  function Batteries(comps: seq<Component>): (bs: seq<Component>)
    ensures |bs| <= |comps|
    ensures forall t :: 0 <= t < |bs| ==> bs[t].kind == BATTERY
  {
    if |comps| == 0 then []
    else (if comps[0].kind == BATTERY then [comps[0]] else []) + Batteries(comps[1..])
  }

  lemma {:induction false} BatteriesAppend(a: seq<Component>, b: seq<Component>)
    ensures Batteries(a + b) == Batteries(a) + Batteries(b)
  {
    if |a| > 0 {
      var h := if a[0].kind == BATTERY then [a[0]] else [];
      assert (a + b)[0] == a[0];
      assert (a + b)[1..] == a[1..] + b;
      assert Batteries(a + b) == h + Batteries(a[1..] + b);
      BatteriesAppend(a[1..], b);
      assert Batteries(a) == h + Batteries(a[1..]);
    } else {
      assert a + b == b;
    }
  }

  /** A battery at position `i` is battery number `|Batteries(comps[..i])|`. */
  lemma {:induction false} BatteryAt(comps: seq<Component>, i: nat)
    requires i < |comps| && comps[i].kind == BATTERY
    ensures |Batteries(comps[..i])| < |Batteries(comps)|
    ensures Batteries(comps)[|Batteries(comps[..i])|] == comps[i]
  {
    BatteriesAppend(comps[..i], comps[i..]);
    assert comps[..i] + comps[i..] == comps;
    assert comps[i..][1..] == comps[i + 1..];
    assert Batteries(comps[i..]) == [comps[i]] + Batteries(comps[i + 1..]);
  }

  /** Every battery of the list is one of the components. */
  lemma {:induction false} BatterySource(comps: seq<Component>, t: nat) returns (j: nat)
    requires t < |Batteries(comps)|
    ensures j < |comps| && comps[j] == Batteries(comps)[t]
  {
    var rest := Batteries(comps[1..]);
    if comps[0].kind == BATTERY && t == 0 {
      j := 0;
    } else {
      var t' := if comps[0].kind == BATTERY then t - 1 else t;
      assert Batteries(comps)[t] == rest[t'];
      var j' := BatterySource(comps[1..], t');
      j := j' + 1;
    }
  }

  /** Number of components of a given kind. */
  function CountKind(comps: seq<Component>, t: ComponentType): (n: nat)
    ensures n <= |comps|
    ensures n == 0 <==> forall c :: c in comps ==> c.kind != t
  {
    if |comps| == 0 then 0
    else (if comps[0].kind == t then 1 else 0) + CountKind(comps[1..], t)
  }

  /** Counting over a list with one more component adds one exactly when
      that component has the kind. */
  lemma {:induction false} CountKindAppend(comps: seq<Component>, c: Component, t: ComponentType)
    ensures CountKind(comps + [c], t) == CountKind(comps, t) + (if c.kind == t then 1 else 0)
  {
    if |comps| > 0 {
      assert (comps + [c])[1..] == comps[1..] + [c];
      CountKindAppend(comps[1..], c, t);
    }
  }

  /** The two terminals of every component, in list order:
      pin 0 then pin 1 of the first component, and so on. */
  function PinKeys(comps: seq<Component>): (ps: seq<Pin>)
    ensures |ps| == 2 * |comps|
    ensures forall i :: 0 <= i < |comps| ==> ps[2 * i] == Pin(comps[i].id, 0) && ps[2 * i + 1] == Pin(comps[i].id, 1)
  {
    if |comps| == 0 then []
    else [Pin(comps[0].id, 0), Pin(comps[0].id, 1)] + PinKeys(comps[1..])
  }

  /** A pin is a terminal of a present component. */
  predicate IsTerminal(comps: seq<Component>, p: Pin)
  {
    HasId(comps, p.comp) && (p.index == 0 || p.index == 1)
  }

  /** The pin list holds exactly the terminals of the present components. */
  lemma {:induction false} PinKeysAreTerminals(comps: seq<Component>, p: Pin)
    ensures p in PinKeys(comps) <==> IsTerminal(comps, p)
  {
    if |comps| > 0 {
      PinKeysAreTerminals(comps[1..], p);
      if HasId(comps[1..], p.comp) {
        var i :| 0 <= i < |comps[1..]| && comps[1..][i].id == p.comp;
        assert comps[i + 1].id == p.comp;
      }
      if HasId(comps, p.comp) && comps[0].id != p.comp {
        var i :| 0 <= i < |comps| && comps[i].id == p.comp;
        assert comps[1..][i - 1].id == p.comp;
      }
    }
  }

  /** The readings a solve produces are the only fields that differ. */
  predicate SameExceptReadings(a: Component, b: Component)
  {
    a.(current := None, voltageDrop := None) == b.(current := None, voltageDrop := None)
  }

  /** Wire ids are pairwise distinct. */
  predicate DistinctWireIds(wires: seq<Wire>)
  {
    forall i, j :: 0 <= i < j < |wires| ==> wires[i].id != wires[j].id
  }

  /** No wire connects a component to itself. */
  predicate NoSelfLoops(wires: seq<Wire>)
  {
    forall i :: 0 <= i < |wires| ==> wires[i].source.comp != wires[i].target.comp
  }

  /** Two wires join the same unordered pair of pins. */
  predicate SameEnds(w: Wire, v: Wire)
  {
    (w.source == v.source && w.target == v.target) || (w.source == v.target && w.target == v.source)
  }

  /** No two wires join the same unordered pair of pins. */
  predicate NoDuplicateWires(wires: seq<Wire>)
  {
    forall i, j :: 0 <= i < j < |wires| ==> !SameEnds(wires[i], wires[j])
  }

  /** Every wire end names a present component. */
  predicate NoDanglingWires(comps: seq<Component>, wires: seq<Wire>)
  {
    forall i :: 0 <= i < |wires| ==> HasId(comps, wires[i].source.comp) && HasId(comps, wires[i].target.comp)
  }
}
