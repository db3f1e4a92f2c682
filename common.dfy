// The decision logic of node generation in the `rml!` macro (rml_macros/src/common.rs):
// looking properties up by key string, merging instance properties into a component,
// the node id, the node type, and what code each property key gives rise to. The
// token output itself is replaced by plan values saying which code is generated.

module Common {
  import opened Wrappers
  import opened Strings
  import opened Structs
  import Values
  import Arena
  import Events
  import Format

  type Properties = seq<(PropertyKey, Value)>

  // ---- lookup by key string ----

  /** The first entry whose key renders as `key` (`iter().find(|(k, _)| k.to_string() == key)`). */
  function FindKey(props: Properties, key: string): (r: Option<nat>)
    ensures r.Some? ==> r.value < |props| && props[r.value].0.KeyString() == key
    ensures r.Some? ==> forall j :: 0 <= j < r.value ==> props[j].0.KeyString() != key
    ensures r.None? ==> forall j :: 0 <= j < |props| ==> props[j].0.KeyString() != key
  {
    if props == [] then None
    else if props[0].0.KeyString() == key then Some(0)
    else match FindKey(props[1..], key)
      case None => None
      case Some(i) => Some(i + 1)
  }

  /** The value of the first entry keyed `key`. */
  function Lookup(props: Properties, key: string): Option<Value> {
    match FindKey(props, key)
    case None => None
    case Some(i) => Some(props[i].1)
  }

  /** `extract_node_id`: the rendered value of the first "id" entry. */
  function ExtractNodeId(props: Properties): (r: Option<string>)
    ensures r.None? <==> forall j :: 0 <= j < |props| ==> props[j].0.KeyString() != "id"
    ensures r.Some? ==> Lookup(props, "id").Some? && r.value == ValueToString(Lookup(props, "id").value)
  {
    match Lookup(props, "id")
    case None => None
    case Some(v) => Some(ValueToString(v))
  }

  // ---- apply_instance_properties ----

  /** One instance entry: overwrite the value of the first entry with the same key string, or append. */
  function ApplyOne(props: Properties, entry: (PropertyKey, Value)): (r: Properties)
    ensures FindKey(props, entry.0.KeyString()).Some? ==>
      var i := FindKey(props, entry.0.KeyString()).value;
      r == props[i := (props[i].0, entry.1)]
    ensures FindKey(props, entry.0.KeyString()).None? ==> r == props + [entry]
  {
    match FindKey(props, entry.0.KeyString())
    case None => props + [entry]
    case Some(i) => props[i := (props[i].0, entry.1)]
  }

  /** Every instance entry, in order. */
  function ApplyAll(props: Properties, instance: Properties): Properties {
    if instance == [] then props
    else ApplyOne(ApplyAll(props, instance[..|instance| - 1]), instance[|instance| - 1])
  }

  /** `apply_instance_properties`: the component's entries are updated in place or extended. */
  method ApplyInstanceProperties(resolved: Properties, instance: Properties) returns (r: Properties)
    ensures r == ApplyAll(resolved, instance)
  {
    r := resolved;
    var i := 0;
    while i < |instance|
      invariant 0 <= i <= |instance|
      invariant r == ApplyAll(resolved, instance[..i])
    {
      var entry := instance[i];
      var key := entry.0.KeyString();
      var j := 0;
      while j < |r| && r[j].0.KeyString() != key
        invariant 0 <= j <= |r|
        invariant forall m :: 0 <= m < j ==> r[m].0.KeyString() != key
      {
        j := j + 1;
      }
      assert instance[..i + 1][..i] == instance[..i];
      if j < |r| {
        r := r[j := (r[j].0, entry.1)];
      } else {
        r := r + [entry];
      }
      i := i + 1;
    }
    assert instance[..i] == instance;
  }

  /** The value the last instance entry with key string `key` carries. */
  function InstanceValue(instance: Properties, key: string): Option<Value> {
    if instance == [] then None
    else if instance[|instance| - 1].0.KeyString() == key then Some(instance[|instance| - 1].1)
    else InstanceValue(instance[..|instance| - 1], key)
  }

  /** Existing entries are never removed or reordered: their keys stay where they were. */
  lemma {:induction false} ApplyAllKeepsKeys(props: Properties, instance: Properties)
    ensures |ApplyAll(props, instance)| >= |props|
    ensures forall i :: 0 <= i < |props| ==> ApplyAll(props, instance)[i].0 == props[i].0
    decreases |instance|
  {
    if instance != [] {
      ApplyAllKeepsKeys(props, instance[..|instance| - 1]);
    }
  }

  lemma ApplyOneLookup(props: Properties, entry: (PropertyKey, Value), key: string)
    ensures Lookup(ApplyOne(props, entry), key) ==
            (if entry.0.KeyString() == key then Some(entry.1) else Lookup(props, key))
  {
    var r := ApplyOne(props, entry);
    if FindKey(props, entry.0.KeyString()).None? {
      FindKeyAppend(props, entry, key);
    } else {
      FindKeySameKeys(props, r, key);
    }
  }

  lemma {:induction false} FindKeyAppend(props: Properties, entry: (PropertyKey, Value), key: string)
    ensures FindKey(props + [entry], key) ==
      (if FindKey(props, key).Some? then FindKey(props, key)
       else if entry.0.KeyString() == key then Some(|props|) else None)
    decreases |props|
  {
    if props != [] {
      assert (props + [entry])[1..] == props[1..] + [entry];
      FindKeyAppend(props[1..], entry, key);
    }
  }

  /** Looking up in an extended list: the earlier entries win. */
  lemma LookupAppend(props: Properties, entry: (PropertyKey, Value), key: string)
    ensures Lookup(props + [entry], key) ==
      (if Lookup(props, key).Some? then Lookup(props, key)
       else if entry.0.KeyString() == key then Some(entry.1) else None)
  {
    FindKeyAppend(props, entry, key);
    match FindKey(props, key)
    case None =>
    case Some(i) =>
      assert (props + [entry])[i] == props[i];
  }

  lemma {:induction false} FindKeySameKeys(a: Properties, b: Properties, key: string)
    requires |a| == |b| && forall i :: 0 <= i < |a| ==> a[i].0 == b[i].0
    ensures FindKey(a, key) == FindKey(b, key)
    decreases |a|
  {
    if a != [] {
      assert a[0].0 == b[0].0;
      assert forall i :: 0 <= i < |a| - 1 ==> a[1..][i].0 == a[i + 1].0 == b[i + 1].0 == b[1..][i].0;
      FindKeySameKeys(a[1..], b[1..], key);
    }
  }

  /**
   * After the merge, a key the instance sets reads as the last value the instance gives
   * it; every other key reads as in the component.
   */
  lemma {:induction false} InstanceOverrides(props: Properties, instance: Properties, key: string)
    ensures Lookup(ApplyAll(props, instance), key) ==
            (if InstanceValue(instance, key).Some? then InstanceValue(instance, key) else Lookup(props, key))
    decreases |instance|
  {
    if instance != [] {
      var init := instance[..|instance| - 1];
      InstanceOverrides(props, init, key);
      ApplyOneLookup(ApplyAll(props, init), instance[|instance| - 1], key);
    }
  }

  /** Keys compare by rendering, so `a.b` overwrites an existing `a_b`. */
  lemma ComposedMeetsSimple(v1: Value, v2: Value)
    ensures ApplyOne([(Simple("a_b"), v1)], (Composed("a", "b"), v2)) == [(Simple("a_b"), v2)]
  {
    assert Composed("a", "b").KeyString() == "a_b";
    assert FindKey([(Simple("a_b"), v1)], "a_b") == Some(0);
  }

  // ---- node types ----

  /** The built-in node type names; any other name makes generation panic (None). */
  function NodeTypeOf(name: string): (r: Option<Arena.ItemType>)
    ensures r == Some(Arena.Node) <==> name == "Node"
    ensures r == Some(Arena.Rectangle) <==> name == "Rectangle"
    ensures r == Some(Arena.Text) <==> name == "Text"
    ensures r == Some(Arena.MouseArea) <==> name == "MouseArea"
    ensures r.None? <==> name !in {"Node", "Rectangle", "Text", "MouseArea"}
  {
    if name == "Node" then Some(Arena.Node)
    else if name == "Rectangle" then Some(Arena.Rectangle)
    else if name == "Text" then Some(Arena.Text)
    else if name == "MouseArea" then Some(Arena.MouseArea)
    else None
  }

  // ---- what each property key generates ----

  /** The code generated for a property key in the node-creation stage. */
  datatype PropertyCode =
    | NoCode
    | DeclareSignal(signal: string)
    | ChangeCallback(observed: string, code: string)
    | SignalHandler(signal: string, code: string)
    | SystemHandler(eventType: Events.EventType, code: string)
    | DeclareProperty(name: string, initial: Values.AbstractValue)

  /** The code generated for a property key in the initializer stage. */
  datatype InitCode =
    | NoInit
    | BindingInit(name: string, code: string, related: seq<(string, string)>)
    | ReadyInit(code: string)

  /** The event names only a MouseArea accepts. */
  predicate IsMouseEventName(name: string) {
    name in {"mouse_down", "mouse_up", "mouse_move", "mouse_wheel", "mouse_enter", "mouse_leave", "click"}
  }

  /** The event types of the mouse event names. */
  predicate IsMouseEventType(t: Events.EventType) {
    t in {Events.EventType.MouseDown, Events.EventType.MouseUp, Events.EventType.MouseMove,
          Events.EventType.MouseWheel, Events.EventType.MouseEnter, Events.EventType.MouseLeave,
          Events.EventType.Click}
  }

  /** The event name after `on_`, mapped to its event type; unknown names give None. */
  function EventTypeByName(name: string): (r: Option<Events.EventType>)
    ensures r == Some(Events.EventType.KeyDown) <==> name == "key_down"
    ensures r == Some(Events.EventType.KeyUp) <==> name == "key_up"
    ensures r == Some(Events.EventType.KeyPressed) <==> name == "key_pressed"
    ensures r == Some(Events.EventType.MouseDown) <==> name == "mouse_down"
    ensures r == Some(Events.EventType.MouseUp) <==> name == "mouse_up"
    ensures r == Some(Events.EventType.MouseMove) <==> name == "mouse_move"
    ensures r == Some(Events.EventType.MouseWheel) <==> name == "mouse_wheel"
    ensures r == Some(Events.EventType.MouseEnter) <==> name == "mouse_enter"
    ensures r == Some(Events.EventType.MouseLeave) <==> name == "mouse_leave"
    ensures r == Some(Events.EventType.Click) <==> name == "click"
    ensures r == Some(Events.EventType.WindowResize) <==> name == "window_resize"
    ensures r == Some(Events.EventType.WindowFocus) <==> name == "window_focus"
    ensures r == Some(Events.EventType.WindowLostFocus) <==> name == "window_lost_focus"
    ensures r.None? <==> name !in EventNames
    ensures IsMouseEventName(name) <==> r.Some? && IsMouseEventType(r.value)
  {
    if name == "key_down" then Some(Events.EventType.KeyDown)
    else if name == "key_up" then Some(Events.EventType.KeyUp)
    else if name == "key_pressed" then Some(Events.EventType.KeyPressed)
    else if name == "mouse_down" then Some(Events.EventType.MouseDown)
    else if name == "mouse_up" then Some(Events.EventType.MouseUp)
    else if name == "mouse_move" then Some(Events.EventType.MouseMove)
    else if name == "mouse_wheel" then Some(Events.EventType.MouseWheel)
    else if name == "mouse_enter" then Some(Events.EventType.MouseEnter)
    else if name == "mouse_leave" then Some(Events.EventType.MouseLeave)
    else if name == "click" then Some(Events.EventType.Click)
    else if name == "window_resize" then Some(Events.EventType.WindowResize)
    else if name == "window_focus" then Some(Events.EventType.WindowFocus)
    else if name == "window_lost_focus" then Some(Events.EventType.WindowLostFocus)
    else None
  }

  /** The thirteen event names a handler key may carry after `on_`. */
  const EventNames: set<string> :=
    {"key_down", "key_up", "key_pressed", "mouse_down", "mouse_up", "mouse_move", "mouse_wheel",
     "mouse_enter", "mouse_leave", "click", "window_resize", "window_focus", "window_lost_focus"}

  /** The handler-key name of each event type: the inverse of `EventTypeByName`. */
  function EventTypeName(t: Events.EventType): (r: string)
    ensures r in EventNames
    ensures r != [] && r[0] != 'o'
    ensures r[|r| - 1] != 'd' || (|r| >= 7 && r[|r| - 7] != 'c')
  {
    match t
    case KeyDown => "key_down"
    case KeyUp => "key_up"
    case KeyPressed => "key_pressed"
    case MouseDown => "mouse_down"
    case MouseUp => "mouse_up"
    case MouseMove => "mouse_move"
    case MouseWheel => "mouse_wheel"
    case MouseEnter => "mouse_enter"
    case MouseLeave => "mouse_leave"
    case Click => "click"
    case WindowResize => "window_resize"
    case WindowFocus => "window_focus"
    case WindowLostFocus => "window_lost_focus"
  }

  /** Event names and event types are in one-to-one correspondence. */
  lemma EventNameRoundTrip(t: Events.EventType, name: string)
    ensures EventTypeByName(EventTypeName(t)) == Some(t)
    ensures EventTypeByName(name) == Some(t) ==> name == EventTypeName(t)
  {
  }

  /** Some entry of `props` declares the signal `name`. */
  predicate DeclaresSignal(props: Properties, name: string) {
    exists j :: 0 <= j < |props| && props[j].0.IsSignal() && props[j].0.KeyString() == name
  }

  function BlockCode(v: Value): Option<string> {
    if v.VBlock? then Some(v.code) else None
  }

  /** The node-creation code for one entry; Err is a generation panic. */
  function PropertyCodeFor(nodeType: Arena.ItemType, props: Properties, k: PropertyKey, v: Value): (r: Result<PropertyCode, string>)
    // generation panics exactly for a mouse handler, not shadowed by a signal, outside a MouseArea
    ensures r.Err? <==>
      !k.IsSignal() && StartsWith(k.KeyString(), "on_") && !EndsWith(k.KeyString(), "_changed") &&
      var e := TrimStartMatches(k.KeyString(), "on_");
      !DeclaresSignal(props, e) && IsMouseEventName(e) && nodeType != Arena.MouseArea
    ensures r.Ok? && r.value.DeclareSignal? <==> k.IsSignal()
    ensures r.Ok? && r.value.DeclareProperty? <==> !k.IsSignal() && !StartsWith(k.KeyString(), "on_")
    ensures r.Ok? && r.value.DeclareProperty? ==>
      r.value.name == k.KeyString() && r.value.initial == (if v.VBlock? then Values.Null else ValueToAbstractValue(v))
    // every callback carries the entry's own block
    ensures r.Ok? && (r.value.ChangeCallback? || r.value.SignalHandler? || r.value.SystemHandler?) ==>
      v == VBlock(r.value.code)
    ensures r.Ok? && r.value.ChangeCallback? ==>
      StartsWith(k.KeyString(), "on_") && EndsWith(k.KeyString(), "_changed") &&
      r.value.observed == TrimEndMatches(TrimStartMatches(k.KeyString(), "on_"), "_changed")
    // a block on a handler key always yields code: a change callback, a signal handler, or a
    // system handler, and nothing for an unknown event name
    ensures !k.IsSignal() && StartsWith(k.KeyString(), "on_") && EndsWith(k.KeyString(), "_changed") && v.VBlock? ==>
      r.Ok? && r.value.ChangeCallback?
    ensures !k.IsSignal() && StartsWith(k.KeyString(), "on_") && !EndsWith(k.KeyString(), "_changed") && v.VBlock? &&
            DeclaresSignal(props, TrimStartMatches(k.KeyString(), "on_")) ==>
      r == Ok(SignalHandler(TrimStartMatches(k.KeyString(), "on_"), v.code))
    ensures var e := TrimStartMatches(k.KeyString(), "on_");
      !k.IsSignal() && StartsWith(k.KeyString(), "on_") && !EndsWith(k.KeyString(), "_changed") &&
      !DeclaresSignal(props, e) && EventTypeByName(e).None? ==>
        r == Ok(NoCode)
    // a value that is not a block on a handler key yields no code
    ensures !k.IsSignal() && StartsWith(k.KeyString(), "on_") && !v.VBlock? && r.Ok? ==> r.value == NoCode
    ensures r.Ok? && r.value.SignalHandler? ==> DeclaresSignal(props, r.value.signal)
    ensures r.Ok? && r.value.SystemHandler? ==>
      var e := TrimStartMatches(k.KeyString(), "on_");
      !DeclaresSignal(props, e) && EventTypeByName(e) == Some(r.value.eventType) &&
      (IsMouseEventType(r.value.eventType) ==> nodeType == Arena.MouseArea)
  {
    var s := k.KeyString();
    if k.IsSignal() then Ok(DeclareSignal(s))
    else if StartsWith(s, "on_") && EndsWith(s, "_changed") then
      var observed := TrimEndMatches(TrimStartMatches(s, "on_"), "_changed");
      Ok(if v.VBlock? then ChangeCallback(observed, v.code) else NoCode)
    else if StartsWith(s, "on_") then
      var eventName := TrimStartMatches(s, "on_");
      if DeclaresSignal(props, eventName) then
        Ok(if v.VBlock? then SignalHandler(eventName, v.code) else NoCode)
      else if IsMouseEventName(eventName) && nodeType != Arena.MouseArea then
        Err("Mouse events can only be used in MouseArea nodes")
      else
        match EventTypeByName(eventName)
        case None => Ok(NoCode)
        case Some(t) => Ok(if v.VBlock? then SystemHandler(t, v.code) else NoCode)
    else if v.VBlock? then Ok(DeclareProperty(s, Values.Null))
    else Ok(DeclareProperty(s, ValueToAbstractValue(v)))
  }

  /**
   * The initializer code for one entry; None when dependency extraction panics. A block on
   * a plain key becomes a binding whose dependencies exclude the key itself and hold no
   * duplicate; an `on_ready...` block becomes ready code; everything else needs none.
   */
  function InitCodeFor(id: string, k: PropertyKey, v: Value): (r: Option<InitCode>)
    ensures var s := k.KeyString();
      r.None? <==> v.VBlock? && !StartsWith(s, "on_") && !EndsWith(s, "_changed") &&
                   Format.RelatedProperties(id, s, v.code).None?
    ensures r.Some? && r.value.BindingInit? ==>
      var s := k.KeyString();
      !StartsWith(s, "on_") && !EndsWith(s, "_changed") && v == VBlock(r.value.code) && r.value.name == s &&
      (id, s) !in r.value.related && NoDup(r.value.related)
    ensures r.Some? && r.value.ReadyInit? ==> StartsWith(k.KeyString(), "on_ready") && v == VBlock(r.value.code)
  {
    var s := k.KeyString();
    if !StartsWith(s, "on_") && !EndsWith(s, "_changed") then
      if v.VBlock? then
        match Format.RelatedProperties(id, s, v.code)
        case None => None
        case Some(related) => Some(BindingInit(s, v.code, related))
      else Some(NoInit)
    else if StartsWith(s, "on_ready") then
      Some(if v.VBlock? then ReadyInit(v.code) else NoInit)
    else Some(NoInit)
  }

  /**
   * A block on a plain key is declared with a Null placeholder and re-evaluated by a
   * binding callback registered in the initializer.
   */
  lemma BlockBinding(nodeType: Arena.ItemType, props: Properties, id: string, k: PropertyKey, code: string)
    requires !k.IsSignal() && !StartsWith(k.KeyString(), "on_") && !EndsWith(k.KeyString(), "_changed")
    ensures PropertyCodeFor(nodeType, props, k, VBlock(code)) == Ok(DeclareProperty(k.KeyString(), Values.Null))
    ensures var init := InitCodeFor(id, k, VBlock(code));
      init.Some? ==> init.value.BindingInit? && init.value.code == code
  {
  }

  /** An `on_ready` block is initializer code only, unless `ready` is a declared signal. */
  lemma ReadyIsInitializerOnly(nodeType: Arena.ItemType, props: Properties, id: string, code: string)
    requires !DeclaresSignal(props, "ready")
    ensures PropertyCodeFor(nodeType, props, Simple("on_ready"), VBlock(code)) == Ok(NoCode)
    ensures InitCodeFor(id, Simple("on_ready"), VBlock(code)) == Some(ReadyInit(code))
  {
    var s := "on_ready";
    assert StartsWith(s, "on_");
    assert !EndsWith(s, "_changed");
    assert s[3..] == "ready";
    assert "ready"[..3] != "on_" by { assert "ready"[..3][0] == 'r'; }
    assert TrimStartMatches(s, "on_") == "ready";
    assert !IsMouseEventName("ready");
    assert StartsWith(s, "on_ready");
  }

  /**
   * The key `on_<name>` is a handler key whose event name is `name` again, when `name` does
   * not start with `o` and does not end like `_changed` (every event name is such a name).
   */
  lemma HandlerKey(name: string)
    requires name != [] && name[0] != 'o'
    requires name[|name| - 1] != 'd' || (|name| >= 7 && name[|name| - 7] != 'c')
    ensures StartsWith("on_" + name, "on_") && !EndsWith("on_" + name, "_changed")
    ensures TrimStartMatches("on_" + name, "on_") == name
  {
    assert ("on_" + name)[..3] == "on_";
    assert !StartsWith(name, "on_") by { assert name[0] != 'o'; }
    Strings.PrefixStripped("on_", name);
    NotChangedKey(name);
  }

  lemma NotChangedKey(name: string)
    requires name != []
    requires name[|name| - 1] != 'd' || (|name| >= 7 && name[|name| - 7] != 'c')
    ensures !EndsWith("on_" + name, "_changed")
  {
    var s := "on_" + name;
    if |s| >= 8 {
      var tail := s[|s| - 8..];
      assert tail[7] == name[|name| - 1];
      assert |name| >= 7 ==> tail[1] == name[|name| - 7];
    }
  }

  /** A mouse event handler outside a MouseArea makes generation panic, for every mouse event name. */
  lemma MouseEventOutsideMouseAreaPanics(nodeType: Arena.ItemType, props: Properties, name: string, v: Value)
    requires IsMouseEventName(name) && nodeType != Arena.MouseArea && !DeclaresSignal(props, name)
    ensures PropertyCodeFor(nodeType, props, Simple("on_" + name), v).Err?
  {
    HandlerKey(name);
  }

  /**
   * A block on `on_<name>` for a known event name, not shadowed by a signal and allowed on
   * this node type, registers a system handler of exactly that event type.
   */
  lemma SystemHandlerFor(nodeType: Arena.ItemType, props: Properties, t: Events.EventType, code: string)
    requires !DeclaresSignal(props, EventTypeName(t)) && (IsMouseEventType(t) ==> nodeType == Arena.MouseArea)
    ensures PropertyCodeFor(nodeType, props, Simple("on_" + EventTypeName(t)), VBlock(code)) == Ok(SystemHandler(t, code))
  {
    var name := EventTypeName(t);
    var k := Simple("on_" + name);
    HandlerKey(name);
    EventNameRoundTrip(t, name);
    assert k.KeyString() == "on_" + name && !k.IsSignal();
    assert IsMouseEventName(name) ==> nodeType == Arena.MouseArea;
  }

  /** The four geometry properties every node is created with. */
  const ComputedGeometry: seq<(string, Values.AbstractValue)> :=
    [("computed_x", Values.Number(0.0)), ("computed_y", Values.Number(0.0)),
     ("computed_width", Values.Number(0.0)), ("computed_height", Values.Number(0.0))]

  /** What `generate` decides for one node: its id, type, creation code and initializer code. */
  datatype NodePlan = NodePlan(id: string, nodeType: Arena.ItemType, geometry: seq<(string, Values.AbstractValue)>,
                               creation: seq<PropertyCode>, initializers: seq<InitCode>)

  /** The creation code of the entries in order; Err at the first entry that panics. */
  function CreationCode(nodeType: Arena.ItemType, props: Properties, entries: Properties)
    : (r: Result<seq<PropertyCode>, string>)
    ensures r.Ok? <==> forall i :: 0 <= i < |entries| ==> PropertyCodeFor(nodeType, props, entries[i].0, entries[i].1).Ok?
    ensures r.Ok? ==>
      |r.value| == |entries| &&
      forall i :: 0 <= i < |entries| ==> Ok(r.value[i]) == PropertyCodeFor(nodeType, props, entries[i].0, entries[i].1)
  {
    var codes := seq(|entries|, i requires 0 <= i < |entries| => PropertyCodeFor(nodeType, props, entries[i].0, entries[i].1));
    assert forall i :: 0 <= i < |entries| ==> codes[i] == PropertyCodeFor(nodeType, props, entries[i].0, entries[i].1);
    AllOk(codes)
  }

  /** The initializer code of the entries in order; None when any entry's extraction panics. */
  function InitializerCode(id: string, entries: Properties): (r: Option<seq<InitCode>>)
    ensures r.Some? <==> forall i :: 0 <= i < |entries| ==> InitCodeFor(id, entries[i].0, entries[i].1).Some?
    ensures r.Some? ==>
      |r.value| == |entries| &&
      forall i :: 0 <= i < |entries| ==> Some(r.value[i]) == InitCodeFor(id, entries[i].0, entries[i].1)
  {
    var inits := seq(|entries|, i requires 0 <= i < |entries| => InitCodeFor(id, entries[i].0, entries[i].1));
    assert forall i :: 0 <= i < |entries| ==> inits[i] == InitCodeFor(id, entries[i].0, entries[i].1);
    AllSome(inits)
  }

  /** All the values of `results` in order, or None when any is missing. */
  function AllSome<T>(results: seq<Option<T>>): (r: Option<seq<T>>)
    ensures r.Some? <==> forall i :: 0 <= i < |results| ==> results[i].Some?
    ensures r.Some? ==> |r.value| == |results| && forall i :: 0 <= i < |results| ==> r.value[i] == results[i].value
  {
    if results == [] then Some([])
    else
      match AllSome(results[..|results| - 1])
      case None => None
      case Some(prev) =>
        match results[|results| - 1]
        case None => None
        case Some(v) => Some(prev + [v])
  }

  /**
   * `RmlNode::generate` for one node, without its children: the id is the node's "id"
   * property or `generatedId` (a fresh uuid name in the source); Err is a panic.
   */
  function GeneratePlan(node: RmlNode, generatedId: string): (r: Result<NodePlan, string>)
    ensures r.Ok? <==>
      NodeTypeOf(node.ident).Some? &&
      CreationCode(NodeTypeOf(node.ident).value, node.properties, node.properties).Ok? &&
      InitializerCode(ExtractNodeId(node.properties).GetOr(generatedId), node.properties).Some?
    ensures r.Ok? ==>
      Some(r.value.nodeType) == NodeTypeOf(node.ident) &&
      r.value.id == ExtractNodeId(node.properties).GetOr(generatedId) &&
      r.value.geometry == ComputedGeometry &&
      Ok(r.value.creation) == CreationCode(r.value.nodeType, node.properties, node.properties) &&
      Some(r.value.initializers) == InitializerCode(r.value.id, node.properties)
  {
    var id := ExtractNodeId(node.properties).GetOr(generatedId);
    match NodeTypeOf(node.ident)
    case None => Err("Unknown node type: " + node.ident)
    case Some(t) =>
      match CreationCode(t, node.properties, node.properties)
      case Err(e) => Err(e)
      case Ok(creation) =>
        match InitializerCode(id, node.properties)
        case None => Err("dependency extraction failed")
        case Some(initializers) =>
          Ok(NodePlan(id, t, ComputedGeometry,
                           creation, initializers))
  }

  /** A generated node with the plans of its children, in order. */
  datatype TreePlan = TreePlan(plan: NodePlan, children: seq<TreePlan>)

  /**
   * `RmlNode::generate` over the whole tree. `newId` gives the generated id of the node at
   * a child-index path (the uuid in the source); a panic anywhere fails the whole tree, and
   * a generated tree holds the root's plan and the children's plans in order.
   */
  function GenerateTree(node: RmlNode, path: seq<nat>, newId: seq<nat> -> string): (r: Result<TreePlan, string>)
    ensures r.Ok? <==>
      GeneratePlan(node, newId(path)).Ok? &&
      forall i :: 0 <= i < |node.children| ==> GenerateTree(node.children[i], path + [i], newId).Ok?
    ensures r.Ok? ==>
      GeneratePlan(node, newId(path)) == Ok(r.value.plan) && |r.value.children| == |node.children| &&
      forall i :: 0 <= i < |node.children| ==> Ok(r.value.children[i]) == GenerateTree(node.children[i], path + [i], newId)
    decreases node, 1
  {
    match GeneratePlan(node, newId(path))
    case Err(e) => Err(e)
    case Ok(p) =>
      match AllOk(ChildResults(node, path, newId))
      case Err(e) => Err(e)
      case Ok(cs) => Ok(TreePlan(p, cs))
  }

  /** The first failure of `results`, or all their values in order. */
  function AllOk<T>(results: seq<Result<T, string>>): (r: Result<seq<T>, string>)
    ensures r.Ok? <==> forall i :: 0 <= i < |results| ==> results[i].Ok?
    ensures r.Ok? ==> |r.value| == |results| && forall i :: 0 <= i < |results| ==> r.value[i] == results[i].value
  {
    if results == [] then Ok([])
    else
      match AllOk(results[..|results| - 1])
      case Err(e) => Err(e)
      case Ok(prev) =>
        match results[|results| - 1]
        case Err(e) => Err(e)
        case Ok(v) => Ok(prev + [v])
  }

  /** The child results `GenerateTree` collects for `node`, in child order. */
  function ChildResults(node: RmlNode, path: seq<nat>, newId: seq<nat> -> string): (r: seq<Result<TreePlan, string>>)
    ensures |r| == |node.children|
    ensures forall i :: 0 <= i < |node.children| ==> r[i] == GenerateTree(node.children[i], path + [i], newId)
    decreases node, 0
  {
    seq(|node.children|, i requires 0 <= i < |node.children| => GenerateTree(node.children[i], path + [i], newId))
  }
}
