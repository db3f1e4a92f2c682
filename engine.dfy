/**
 * The reactive runtime `RmlEngine` (rml_core/src/lib.rs): a property store keyed by
 * property id, callbacks keyed by callback id, bindings from property ids to callback
 * lists, and a queue of callbacks waiting to run; plus hit testing and the per-frame
 * event dispatch.
 *
 * Callbacks are closures in the source. Here a callback is a list of abstract
 * actions — property writes and signal emissions — executed through the same
 * operations a closure would call.
 */
module Engine {
  import opened Wrappers
  import opened Values
  import opened Arena
  import opened Events

  /** What a callback does to the engine. */
  datatype Action =
    | SetAction(node: string, name: string, value: AbstractValue)
    | EmitAction(node: string, signal: string)

  datatype Callback = Callback(actions: seq<Action>)

  /** The part of the engine that running callbacks changes: the values and the pending queue. */
  datatype Store = Store(values: map<nat, AbstractValue>, queue: seq<nat>)

  /** The part that stays fixed while callbacks run: the arena, the bindings and the registered callbacks. */
  datatype Wiring = Wiring(
    nodes: seq<ArenaNode>,
    ids: map<string, nat>,
    bindings: map<nat, seq<nat>>,
    callbacks: map<nat, Callback>)

  // ---- lookups ----

  /** `get_property_id_of_node`: node name to index, index to node, property name to id. */
  function PropertyIdOfNode(w: Wiring, nodeName: string, propName: string): (r: Option<nat>)
    ensures r.Some? <==>
      nodeName in w.ids && w.ids[nodeName] < |w.nodes| && propName in w.nodes[w.ids[nodeName]].properties
    ensures r.Some? ==> r.value == w.nodes[w.ids[nodeName]].properties[propName]
  {
    if nodeName in w.ids && w.ids[nodeName] < |w.nodes| then w.nodes[w.ids[nodeName]].GetProperty(propName)
    else None
  }

  /**
   * `get_property_of_node`: a total lookup. Every miss — unknown node, property name
   * not on the node, id not in the store, conversion refusing the value — gives `default`.
   */
  function GetPropertyOfNode<T>(w: Wiring, values: map<nat, AbstractValue>, nodeName: string, propName: string,
                                default: T, convert: AbstractValue -> Option<T>): (r: T)
    ensures PropertyIdOfNode(w, nodeName, propName).None? ==> r == default
    ensures PropertyIdOfNode(w, nodeName, propName).Some? && PropertyIdOfNode(w, nodeName, propName).value !in values
      ==> r == default
    ensures PropertyIdOfNode(w, nodeName, propName).Some? && PropertyIdOfNode(w, nodeName, propName).value in values
      ==> r == convert(values[PropertyIdOfNode(w, nodeName, propName).value]).GetOr(default)
  {
    match PropertyIdOfNode(w, nodeName, propName)
    case None => default
    case Some(pid) => if pid in values then convert(values[pid]).GetOr(default) else default
  }

  /** `get_number_property_of_node`. */
  function GetNumber(w: Wiring, values: map<nat, AbstractValue>, nodeName: string, propName: string,
                     default: real): real
  {
    GetPropertyOfNode(w, values, nodeName, propName, default, ToNumber)
  }

  /** The number getter reads the stored number, and the default on a miss or a non-number. */
  lemma GetNumberReads(w: Wiring, values: map<nat, AbstractValue>, nodeName: string, propName: string, default: real)
    ensures var r := GetNumber(w, values, nodeName, propName, default);
      match PropertyIdOfNode(w, nodeName, propName)
      case Some(pid) => r == if pid in values && values[pid].Number? then values[pid].n else default
      case None => r == default
  {
  }

  /** `get_bool_property_of_node`. */
  function GetBool(w: Wiring, values: map<nat, AbstractValue>, nodeName: string, propName: string,
                   default: bool): bool
  {
    GetPropertyOfNode(w, values, nodeName, propName, default, ToBool)
  }

  /** The bool getter reads the stored boolean, and the default on a miss or a non-boolean. */
  lemma GetBoolReads(w: Wiring, values: map<nat, AbstractValue>, nodeName: string, propName: string, default: bool)
    ensures var r := GetBool(w, values, nodeName, propName, default);
      match PropertyIdOfNode(w, nodeName, propName)
      case Some(pid) => r == if pid in values && values[pid].Bool? then values[pid].b else default
      case None => r == default
  {
  }

  function Identity(v: AbstractValue): Option<AbstractValue> { Some(v) }

  /** The `get_value!` macro: the raw value, `Null` on any miss. */
  function GetValue(w: Wiring, values: map<nat, AbstractValue>, nodeName: string, propName: string): (r: AbstractValue)
    ensures match PropertyIdOfNode(w, nodeName, propName)
      case Some(pid) => r == if pid in values then values[pid] else Null
      case None => r == Null
  {
    match PropertyIdOfNode(w, nodeName, propName)
    case Some(pid) => if pid in values then values[pid] else Null
    case None => Null
  }

  /** `get_value!` is `get_property_of_node` with the identity conversion and a `Null` default. */
  lemma GetValueIsTotalLookup(w: Wiring, values: map<nat, AbstractValue>, nodeName: string, propName: string)
    ensures GetValue(w, values, nodeName, propName) == GetPropertyOfNode(w, values, nodeName, propName, Null, Identity)
  {
  }

  /** `get_property_by_name`: by node index rather than by name. */
  function PropertyByName(w: Wiring, values: map<nat, AbstractValue>, n: nat, name: string): (r: Option<AbstractValue>)
    ensures r.Some? <==> n < |w.nodes| && name in w.nodes[n].properties && w.nodes[n].properties[name] in values
    ensures r.Some? ==> r.value == values[w.nodes[n].properties[name]]
  {
    if n < |w.nodes| && name in w.nodes[n].properties && w.nodes[n].properties[name] in values
    then Some(values[w.nodes[n].properties[name]])
    else None
  }

  /** The callbacks bound to a property, in bind order (empty when none). */
  function BoundTo(w: Wiring, pid: nat): seq<nat> {
    if pid in w.bindings then w.bindings[pid] else []
  }

  // ---- writes ----

  /** The outcome of a write: the new store, and whether the value changed. */
  datatype SetResult = SetResult(store: Store, changed: bool)

  /**
   * `set_property_of_node`: a write that resolves and differs from the stored value
   * stores it and queues every bound callback, in bind order, without running any;
   * any other write changes nothing.
   */
  function SetOn(w: Wiring, st: Store, nodeName: string, propName: string, v: AbstractValue): (r: SetResult)
    ensures var pid := PropertyIdOfNode(w, nodeName, propName);
      r.changed <==> pid.Some? && pid.value in st.values && st.values[pid.value] != v
    ensures !r.changed ==> r.store == st
    ensures r.changed ==> var pid := PropertyIdOfNode(w, nodeName, propName).value;
      r.store.values == st.values[pid := v] && r.store.queue == st.queue + BoundTo(w, pid)
  {
    match PropertyIdOfNode(w, nodeName, propName)
    case None => SetResult(st, false)
    case Some(pid) =>
      if pid !in st.values || st.values[pid] == v then SetResult(st, false)
      else SetResult(Store(st.values[pid := v], st.queue + BoundTo(w, pid)), true)
  }

  /** After a write to a resolving property, reading it back gives the written value. */
  lemma SetThenGet(w: Wiring, st: Store, nodeName: string, propName: string, v: AbstractValue)
    requires PropertyIdOfNode(w, nodeName, propName).Some?
    requires PropertyIdOfNode(w, nodeName, propName).value in st.values
    ensures GetValue(w, SetOn(w, st, nodeName, propName, v).store.values, nodeName, propName) == v
  {
  }

  /**
   * `set_property_of_node` as written: the same writes as `SetOn`, but the `true;` on the
   * change path is a discarded statement, so every path falls through to `false`.
   */
  function SetAsWritten(w: Wiring, st: Store, nodeName: string, propName: string, v: AbstractValue): (r: SetResult)
    ensures !r.changed
    ensures r.store == SetOn(w, st, nodeName, propName, v).store
  {
    match PropertyIdOfNode(w, nodeName, propName)
    case None => SetResult(st, false)
    case Some(pid) =>
      if pid !in st.values || st.values[pid] == v then SetResult(st, false)
      else SetResult(Store(st.values[pid := v], st.queue + BoundTo(w, pid)), false)
  }

  /**
   * On every input the as-written function leaves the same store as `SetOn` and reports no
   * change, although the stored values differ exactly when `SetOn` reports one.
   */
  lemma SetReturnAsWritten(w: Wiring, st: Store, nodeName: string, propName: string, v: AbstractValue)
    ensures SetAsWritten(w, st, nodeName, propName, v).store == SetOn(w, st, nodeName, propName, v).store
    ensures !SetAsWritten(w, st, nodeName, propName, v).changed
    ensures SetOn(w, st, nodeName, propName, v).changed <==>
      SetAsWritten(w, st, nodeName, propName, v).store.values != st.values
  {
    if SetOn(w, st, nodeName, propName, v).changed {
      var pid := PropertyIdOfNode(w, nodeName, propName).value;
      assert SetAsWritten(w, st, nodeName, propName, v).store.values[pid] != st.values[pid];
    }
  }

  /** A write that changes the store and queues a callback is still reported as no change. */
  lemma SetReturnDiscarded()
    ensures var node := ArenaNode("a", Node, map["p" := 0], None, []);
      var w := Wiring([node], map["a" := 0], map[0 := [7]], map[]);
      var st := Store(map[0 := Bool(false)], []);
      SetOn(w, st, "a", "p", Bool(true)).changed &&
      SetOn(w, st, "a", "p", Bool(true)).store.queue == [7] &&
      !SetAsWritten(w, st, "a", "p", Bool(true)).changed
  {
    var node := ArenaNode("a", Node, map["p" := 0], None, []);
    var w := Wiring([node], map["a" := 0], map[0 := [7]], map[]);
    assert PropertyIdOfNode(w, "a", "p") == Some(0);
  }

  /** The `emit!` macro: read the signal as a bool (default false) and write its negation. */
  function EmitOn(w: Wiring, st: Store, nodeName: string, signal: string): (r: Store)
    ensures r.values.Keys == st.values.Keys && st.queue <= r.queue
    ensures forall pid :: pid in st.values && PropertyIdOfNode(w, nodeName, signal) != Some(pid) ==>
      r.values[pid] == st.values[pid]
    ensures PropertyIdOfNode(w, nodeName, signal).None? ==> r == st
  {
    var current := GetBool(w, st.values, nodeName, signal, false);
    SetOn(w, st, nodeName, signal, Bool(!current)).store
  }

  /** An emit on a stored signal always counts as a change, so its bound callbacks are always queued. */
  lemma EmitAlwaysFires(w: Wiring, st: Store, nodeName: string, signal: string)
    requires PropertyIdOfNode(w, nodeName, signal).Some?
    requires PropertyIdOfNode(w, nodeName, signal).value in st.values
    ensures var pid := PropertyIdOfNode(w, nodeName, signal).value;
      EmitOn(w, st, nodeName, signal).values[pid] != st.values[pid]
    ensures var pid := PropertyIdOfNode(w, nodeName, signal).value;
      EmitOn(w, st, nodeName, signal).queue == st.queue + BoundTo(w, pid)
  {
    var pid := PropertyIdOfNode(w, nodeName, signal).value;
    var current := GetBool(w, st.values, nodeName, signal, false);
    assert st.values[pid] != Bool(!current) by {
      if st.values[pid].Bool? {
        assert current == st.values[pid].b;
      }
    }
  }

  // ---- running callbacks ----

  function ApplyAction(w: Wiring, st: Store, a: Action): (r: Store)
    ensures r.values.Keys == st.values.Keys && st.queue <= r.queue
  {
    match a
    case SetAction(node, name, value) => SetOn(w, st, node, name, value).store
    case EmitAction(node, signal) => EmitOn(w, st, node, signal)
  }

  /** One callback's actions, in order. */
  function ApplyActions(w: Wiring, st: Store, actions: seq<Action>): (r: Store)
    ensures r.values.Keys == st.values.Keys && st.queue <= r.queue
  {
    if actions == [] then st
    else ApplyAction(w, ApplyActions(w, st, actions[..|actions| - 1]), actions[|actions| - 1])
  }

  /** Run the listed callbacks in order; ids with no registered callback are skipped. */
  function RunAll(w: Wiring, st: Store, ids: seq<nat>): (r: Store)
    ensures r.values.Keys == st.values.Keys && st.queue <= r.queue
  {
    if ids == [] then st
    else
      var before := RunAll(w, st, ids[..|ids| - 1]);
      var id := ids[|ids| - 1];
      if id in w.callbacks then ApplyActions(w, before, w.callbacks[id].actions) else before
  }

  /** `run_callbacks`: take the queue, leaving it empty, then run what was taken. */
  function RunCallbacksOn(w: Wiring, st: Store): (r: Store)
    ensures r.values.Keys == st.values.Keys
  {
    RunAll(w, Store(st.values, []), st.queue)
  }

  /** Ids with no registered callback are skipped: a queue of only such ids changes nothing. */
  lemma {:induction false} UnregisteredSkipped(w: Wiring, st: Store, ids: seq<nat>)
    requires forall i :: 0 <= i < |ids| ==> ids[i] !in w.callbacks
    ensures RunAll(w, st, ids) == st
  {
    if ids != [] {
      UnregisteredSkipped(w, st, ids[..|ids| - 1]);
    }
  }

  /**
   * Second-order callbacks are deferred: when the only queued callback writes a new value
   * to a property, that property's bound callbacks end up queued and not run, and that
   * write is the only change to the values.
   */
  lemma SecondOrderDeferred(w: Wiring, values: map<nat, AbstractValue>, first: nat,
                            nodeName: string, propName: string, v: AbstractValue)
    requires first in w.callbacks && w.callbacks[first] == Callback([SetAction(nodeName, propName, v)])
    requires PropertyIdOfNode(w, nodeName, propName).Some?
    requires PropertyIdOfNode(w, nodeName, propName).value in values
    requires values[PropertyIdOfNode(w, nodeName, propName).value] != v
    ensures var pid := PropertyIdOfNode(w, nodeName, propName).value;
      var after := RunCallbacksOn(w, Store(values, [first]));
      after.queue == BoundTo(w, pid) && after.values == values[pid := v]
  {
    var st := Store(values, []);
    assert [first][..0] == [];
    assert RunAll(w, st, [first]) == ApplyActions(w, st, [SetAction(nodeName, propName, v)]);
    assert [SetAction(nodeName, propName, v)][..0] == [];
  }

  /** `id` is bound to some property. */
  ghost predicate IsBound(w: Wiring, id: nat) {
    exists pid :: pid in w.bindings && id in w.bindings[pid]
  }

  /** Every entry of `q` from index `from` on is bound to some property. */
  ghost predicate BoundFrom(w: Wiring, q: seq<nat>, from: nat) {
    forall i :: from <= i < |q| ==> IsBound(w, q[i])
  }

  /** Whatever one action adds to the queue is a list of callbacks bound to the written property. */
  lemma ActionQueuesBound(w: Wiring, st: Store, a: Action)
    ensures var after := ApplyAction(w, st, a);
      |st.queue| <= |after.queue| && after.queue[..|st.queue|] == st.queue && BoundFrom(w, after.queue, |st.queue|)
  {
    var r := match a
      case SetAction(node, name, value) => SetOn(w, st, node, name, value)
      case EmitAction(node, signal) => SetOn(w, st, node, signal, Bool(!GetBool(w, st.values, node, signal, false)));
    if r.changed {
      var pid := match a
        case SetAction(node, name, _) => PropertyIdOfNode(w, node, name).value
        case EmitAction(node, signal) => PropertyIdOfNode(w, node, signal).value;
      assert ApplyAction(w, st, a) == r.store;
      assert r.store.queue == st.queue + BoundTo(w, pid);
      forall i | |st.queue| <= i < |r.store.queue| ensures IsBound(w, r.store.queue[i]) {
        assert r.store.queue[i] == w.bindings[pid][i - |st.queue|];
      }
    }
  }

  lemma {:induction false} ActionsQueueBound(w: Wiring, st: Store, actions: seq<Action>)
    ensures var after := ApplyActions(w, st, actions);
      |st.queue| <= |after.queue| && after.queue[..|st.queue|] == st.queue && BoundFrom(w, after.queue, |st.queue|)
  {
    if actions != [] {
      ActionsQueueBound(w, st, actions[..|actions| - 1]);
      var mid := ApplyActions(w, st, actions[..|actions| - 1]);
      ActionQueuesBound(w, mid, actions[|actions| - 1]);
      var after := ApplyAction(w, mid, actions[|actions| - 1]);
      assert after.queue[..|mid.queue|][..|st.queue|] == after.queue[..|st.queue|];
      assert forall i :: |st.queue| <= i < |mid.queue| ==> after.queue[i] == mid.queue[i];
    }
  }

  lemma {:induction false} RunAllQueueBound(w: Wiring, st: Store, ids: seq<nat>)
    ensures var after := RunAll(w, st, ids);
      |st.queue| <= |after.queue| && after.queue[..|st.queue|] == st.queue && BoundFrom(w, after.queue, |st.queue|)
  {
    if ids != [] {
      RunAllQueueBound(w, st, ids[..|ids| - 1]);
      var before := RunAll(w, st, ids[..|ids| - 1]);
      var id := ids[|ids| - 1];
      if id in w.callbacks {
        ActionsQueueBound(w, before, w.callbacks[id].actions);
        var after := ApplyActions(w, before, w.callbacks[id].actions);
        assert after.queue[..|before.queue|][..|st.queue|] == after.queue[..|st.queue|];
        assert forall i :: |st.queue| <= i < |before.queue| ==> after.queue[i] == before.queue[i];
      }
    }
  }

  /**
   * Second-order callbacks are deferred, for any store: after a drain the queue holds only
   * callbacks that were queued by writes during the drain, each bound to some property;
   * none of them has run.
   */
  lemma DrainLeavesOnlyBound(w: Wiring, st: Store)
    ensures forall i :: 0 <= i < |RunCallbacksOn(w, st).queue| ==> IsBound(w, RunCallbacksOn(w, st).queue[i])
  {
    RunAllQueueBound(w, Store(st.values, []), st.queue);
  }

  // ---- hit testing ----

  /**
   * `is_point_inside_node`: the box is read from the node's `computed_*` numbers,
   * looked up by the node's string id, with 0 for anything missing; all four edges
   * are inside.
   */
  function IsPointInsideNode(w: Wiring, values: map<nat, AbstractValue>, n: nat, x: real, y: real): (r: bool)
    ensures r ==> n < |w.nodes|
  {
    if n < |w.nodes| then
      var id := w.nodes[n].id;
      var cx := GetNumber(w, values, id, "computed_x", 0.0);
      var cy := GetNumber(w, values, id, "computed_y", 0.0);
      var cw := GetNumber(w, values, id, "computed_width", 0.0);
      var ch := GetNumber(w, values, id, "computed_height", 0.0);
      x >= cx && x <= cx + cw && y >= cy && y <= cy + ch
    else false
  }

  /** A node without any geometry is a zero-sized box at the origin. */
  lemma MissingGeometryIsOrigin(w: Wiring, values: map<nat, AbstractValue>, n: nat, x: real, y: real)
    requires n < |w.nodes|
    requires w.nodes[n].properties == map[]
    requires w.nodes[n].id in w.ids && w.ids[w.nodes[n].id] == n
    ensures IsPointInsideNode(w, values, n, x, y) <==> x == 0.0 && y == 0.0
  {
  }

  /** Containment is inclusive: all four corners of the box are inside. */
  lemma CornersInside(w: Wiring, values: map<nat, AbstractValue>, n: nat)
    requires n < |w.nodes|
    ensures var id := w.nodes[n].id;
      var cx := GetNumber(w, values, id, "computed_x", 0.0);
      var cy := GetNumber(w, values, id, "computed_y", 0.0);
      var cw := GetNumber(w, values, id, "computed_width", 0.0);
      var ch := GetNumber(w, values, id, "computed_height", 0.0);
      cw >= 0.0 && ch >= 0.0 ==>
        IsPointInsideNode(w, values, n, cx, cy) && IsPointInsideNode(w, values, n, cx + cw, cy) &&
        IsPointInsideNode(w, values, n, cx, cy + ch) && IsPointInsideNode(w, values, n, cx + cw, cy + ch)
  {
  }

  /**
   * The mapped indices of the MouseArea nodes among `nodes[..k]`, in creation order;
   * with a point, only those whose box holds it.
   */
  function Collect(w: Wiring, values: map<nat, AbstractValue>, k: nat, at: Option<(real, real)>): (r: seq<nat>)
    requires k <= |w.nodes|
    ensures |r| <= k
    ensures at.Some? ==> forall i :: 0 <= i < |r| ==> IsPointInsideNode(w, values, r[i], at.value.0, at.value.1)
  {
    if k == 0 then []
    else
      var rest := Collect(w, values, k - 1, at);
      var node := w.nodes[k - 1];
      if node.nodeType == MouseArea && node.id in w.ids &&
         (at.None? || IsPointInsideNode(w, values, w.ids[node.id], at.value.0, at.value.1))
      then rest + [w.ids[node.id]]
      else rest
  }

  function Reverse(s: seq<nat>): (r: seq<nat>)
    ensures |r| == |s|
    ensures forall i :: 0 <= i < |s| ==> r[i] == s[|s| - 1 - i]
    ensures forall m :: m in r <==> m in s
  {
    if s == [] then [] else [s[|s| - 1]] + Reverse(s[..|s| - 1])
  }

  /** `get_mouse_area_nodes_at_position`: the hit list, topmost (latest created) first. */
  function HitList(w: Wiring, values: map<nat, AbstractValue>, x: real, y: real): (r: seq<nat>)
    ensures |r| <= |w.nodes|
    ensures forall i :: 0 <= i < |r| ==> IsPointInsideNode(w, values, r[i], x, y)
  {
    Reverse(Collect(w, values, |w.nodes|, Some((x, y))))
  }

  /** `get_mouse_area_nodes`: every MouseArea node, topmost first. */
  function MouseAreaNodes(w: Wiring, values: map<nat, AbstractValue>): (r: seq<nat>)
    ensures |r| <= |w.nodes|
  {
    Reverse(Collect(w, values, |w.nodes|, None))
  }

  /** The id map sends every node's id to that node's own index (true until a removal shifts indices). */
  ghost predicate Consistent(w: Wiring) {
    forall i :: 0 <= i < |w.nodes| ==> w.nodes[i].id in w.ids && w.ids[w.nodes[i].id] == i
  }

  /** `Collect` lists only indices below `k`. */
  lemma {:induction false} CollectBelow(w: Wiring, values: map<nat, AbstractValue>, k: nat, at: Option<(real, real)>)
    requires k <= |w.nodes| && Consistent(w)
    ensures forall m :: m in Collect(w, values, k, at) ==> m < k
  {
    if k > 0 {
      CollectBelow(w, values, k - 1, at);
      assert w.ids[w.nodes[k - 1].id] == k - 1;
    }
  }

  /** Over a consistent map, `Collect` lists exactly the qualifying indices below `k`, increasing. */
  lemma {:induction false} CollectExactly(w: Wiring, values: map<nat, AbstractValue>, k: nat, at: Option<(real, real)>)
    requires k <= |w.nodes| && Consistent(w)
    ensures var c := Collect(w, values, k, at);
      (forall i, j :: 0 <= i < j < |c| ==> c[i] < c[j]) &&
      (forall m: nat :: m in c <==> (m < k && w.nodes[m].nodeType == MouseArea &&
                             (at.None? || IsPointInsideNode(w, values, m, at.value.0, at.value.1))))
  {
    if k > 0 {
      var n := k - 1;
      CollectExactly(w, values, n, at);
      CollectBelow(w, values, n, at);
      var rest := Collect(w, values, n, at);
      var c := Collect(w, values, k, at);
      assert w.nodes[n].id in w.ids && w.ids[w.nodes[n].id] == n;
      var hit := w.nodes[n].nodeType == MouseArea && (at.None? || IsPointInsideNode(w, values, n, at.value.0, at.value.1));
      assert c == if hit then rest + [n] else rest;
      assert n !in rest;
      forall m: nat
        ensures m in c <==> (m < k && w.nodes[m].nodeType == MouseArea &&
                             (at.None? || IsPointInsideNode(w, values, m, at.value.0, at.value.1)))
      {
        if m != n {
          assert m in c <==> m in rest;
        }
      }
      if hit {
        forall i, j | 0 <= i < j < |c|
          ensures c[i] < c[j]
        {
          if j == |rest| {
            assert c[i] == rest[i] && rest[i] in rest;
          }
        }
      }
    }
  }

  /**
   * Over a consistent map, a node is in the hit list exactly when it is a MouseArea whose
   * box holds the point, and a later-created node comes before an earlier one.
   */
  lemma HitListTopmostFirst(w: Wiring, values: map<nat, AbstractValue>, x: real, y: real)
    requires Consistent(w)
    ensures var h := HitList(w, values, x, y);
      (forall i, j :: 0 <= i < j < |h| ==> h[i] > h[j]) &&
      (forall m: nat :: m in h <==>
         (m < |w.nodes| && w.nodes[m].nodeType == MouseArea && IsPointInsideNode(w, values, m, x, y)))
  {
    var c := Collect(w, values, |w.nodes|, Some((x, y)));
    CollectExactly(w, values, |w.nodes|, Some((x, y)));
  }

  /** Over a consistent map, the area list holds every MouseArea node exactly once, latest created first. */
  lemma MouseAreaNodesAll(w: Wiring, values: map<nat, AbstractValue>)
    requires Consistent(w)
    ensures var a := MouseAreaNodes(w, values);
      (forall i, j :: 0 <= i < j < |a| ==> a[i] > a[j]) &&
      (forall m: nat :: m in a <==> (m < |w.nodes| && w.nodes[m].nodeType == MouseArea))
  {
    CollectExactly(w, values, |w.nodes|, None);
  }

  // ---- dispatch ----

  /** The same event addressed to node `n`. */
  function Retarget(e: SystemEvent, n: nat): SystemEvent {
    e.(nodeId := n)
  }

  function RetargetAll(e: SystemEvent, targets: seq<nat>): (r: seq<SystemEvent>)
    ensures |r| == |targets|
    ensures forall i :: 0 <= i < |r| ==> r[i] == Retarget(e, targets[i])
  {
    if targets == [] then [] else RetargetAll(e, targets[..|targets| - 1]) + [Retarget(e, targets[|targets| - 1])]
  }

  /** How `process_events` routes a polled event kind. */
  datatype Channel = Broadcast | ToFocus | ToHits | ToAreas | Dropped

  function ChannelOf(e: SystemEvent): Channel {
    if e.WindowResize? || e.WindowFocus? || e.WindowLostFocus? then Broadcast
    else if e.KeyUp? || e.KeyDown? || e.KeyPressed? then ToFocus
    else if e.Click? || e.MouseDown? || e.MouseUp? then ToHits
    else if e.MouseMove? || e.MouseWheel? then ToAreas
    else Dropped
  }

  /** The kinds whose delivery loop stops at a node that consumes the event. */
  predicate Consumable(e: SystemEvent) {
    ChannelOf(e) == ToHits || ChannelOf(e) == ToAreas
  }

  /** The consume flag a kind's delivery loop reads. */
  function ConsumeFlag(e: SystemEvent): string {
    match e
    case Click(_, _, _, _) => "consume_mouse_click"
    case MouseDown(_, _, _, _) => "consume_mouse_down"
    case MouseUp(_, _, _, _) => "consume_mouse_up"
    case MouseMove(_, _, _, _, _) => "consume_mouse_move"
    case MouseWheel(_, _, _) => "consume_mouse_wheel"
    case MouseEnter(_) => "consume_mouse_enter"
    case MouseLeave(_) => "consume_mouse_leave"
    case _ => ""
  }

  /**
   * Where `process_events` delivers one polled event when nothing consumes it: window
   * events as they are; key events to the focused node only; clicks and button events
   * to each hit node; moves and wheel to each MouseArea node.
   */
  function Route(e: SystemEvent, hits: seq<nat>, areas: seq<nat>, focused: Option<nat>): (r: seq<SystemEvent>)
    ensures |r| == |Targets(e, hits, areas, focused)|
    ensures forall i :: 0 <= i < |r| ==> EventTypeOf(r[i]) == EventTypeOf(e)
    ensures !Consumable(e) ==> |r| <= 1
  {
    RetargetAll(e, Targets(e, hits, areas, focused))
  }

  /** The route of each kind of polled event. */
  lemma RouteByKind(e: SystemEvent, hits: seq<nat>, areas: seq<nat>, focused: Option<nat>)
    ensures (e.KeyDown? || e.KeyUp? || e.KeyPressed?) ==>
      (focused.None? ==> Route(e, hits, areas, focused) == []) &&
      (focused.Some? ==> Route(e, hits, areas, focused) == [Retarget(e, focused.value)])
    ensures (e.Click? || e.MouseDown? || e.MouseUp?) ==> Route(e, hits, areas, focused) == RetargetAll(e, hits)
    ensures (e.MouseMove? || e.MouseWheel?) ==> Route(e, hits, areas, focused) == RetargetAll(e, areas)
    ensures (e.WindowResize? || e.WindowFocus? || e.WindowLostFocus?) ==> Route(e, hits, areas, focused) == [e]
    ensures (e.MouseEnter? || e.MouseLeave?) ==> Route(e, hits, areas, focused) == []
  {
    assert ChannelOf(e) == Broadcast ==> Route(e, hits, areas, focused) == [Retarget(e, e.nodeId)];
  }

  /** A route is the retargeted event for each target; without consuming, it has at most one. */
  lemma RouteRetargets(e: SystemEvent, hits: seq<nat>, areas: seq<nat>, focused: Option<nat>)
    ensures Route(e, hits, areas, focused) == RetargetAll(e, Targets(e, hits, areas, focused))
    ensures !Consumable(e) && Targets(e, hits, areas, focused) != [] ==>
      Route(e, hits, areas, focused) == [Retarget(e, Targets(e, hits, areas, focused)[0])]
  {
  }

  /** The nodes a polled event is handed to, in delivery order. */
  function Targets(e: SystemEvent, hits: seq<nat>, areas: seq<nat>, focused: Option<nat>): (r: seq<nat>)
    ensures !Consumable(e) ==> |r| <= 1
  {
    match ChannelOf(e)
    case Broadcast => [e.nodeId]
    case ToFocus => if focused.Some? then [focused.value] else []
    case ToHits => hits
    case ToAreas => areas
    case Dropped => []
  }

  /** Key events reach only the focused node and are dropped without one. */
  lemma KeysOnlyToFocus(e: SystemEvent, hits: seq<nat>, areas: seq<nat>, focused: Option<nat>)
    requires e.KeyDown? || e.KeyUp? || e.KeyPressed?
    ensures forall d :: d in Route(e, hits, areas, focused) ==> focused.Some? && d.nodeId == focused.value
    ensures focused.None? ==> Route(e, hits, areas, focused) == []
  {
  }

  /** One `MouseEnter` for each newly hovered node that was not hovered before, in hit order. */
  function Enters(current: seq<nat>, previous: seq<nat>): (r: seq<SystemEvent>)
    ensures forall e :: e in r ==> e.MouseEnter? && e.nodeId in current && e.nodeId !in previous
  {
    if current == [] then []
    else
      var n := current[|current| - 1];
      Enters(current[..|current| - 1], previous) + (if n in previous then [] else [SystemEvent.MouseEnter(n)])
  }

  /** One `MouseLeave` for each previously hovered node no longer hovered, in the old order. */
  function Leaves(previous: seq<nat>, current: seq<nat>): (r: seq<SystemEvent>)
    ensures forall e :: e in r ==> e.MouseLeave? && e.nodeId in previous && e.nodeId !in current
  {
    if previous == [] then []
    else
      var n := previous[|previous| - 1];
      Leaves(previous[..|previous| - 1], current) + (if n in current then [] else [SystemEvent.MouseLeave(n)])
  }

  /** A node hovered in both frames gets neither a `MouseEnter` nor a `MouseLeave`. */
  lemma {:induction false} StillHoveredIsSilent(current: seq<nat>, previous: seq<nat>, n: nat)
    requires n in current && n in previous
    ensures SystemEvent.MouseEnter(n) !in Enters(current, previous)
    ensures SystemEvent.MouseLeave(n) !in Leaves(previous, current)
  {
  }

  /** Every newly hovered node that was not hovered before gets its `MouseEnter`. */
  lemma {:induction false} EveryNewNodeEntered(current: seq<nat>, previous: seq<nat>, n: nat)
    requires n in current && n !in previous
    ensures SystemEvent.MouseEnter(n) in Enters(current, previous)
  {
    var init := current[..|current| - 1];
    if n != current[|current| - 1] {
      assert n in init;
      EveryNewNodeEntered(init, previous, n);
    }
  }

  /** The concatenation of the events delivered for each polled event, each cut to its delivered count. */
  function Delivered(events: seq<SystemEvent>, counts: seq<nat>, hits: seq<nat>, areas: seq<nat>,
                     focused: Option<nat>): seq<SystemEvent>
    requires |counts| == |events|
  {
    if events == [] then []
    else
      var k := |events| - 1;
      var route := Route(events[k], hits, areas, focused);
      Delivered(events[..k], counts[..k], hits, areas, focused) + route[..if counts[k] <= |route| then counts[k] else |route|]
  }

  /** A delivery count is the whole route unless the kind is consumable, and at least one target is always served. */
  ghost predicate ValidCount(e: SystemEvent, k: nat, hits: seq<nat>, areas: seq<nat>, focused: Option<nat>) {
    var r := Route(e, hits, areas, focused);
    k <= |r| && (!Consumable(e) ==> k == |r|) && (r != [] ==> k >= 1)
  }

  /** Every event of a frame has a valid delivery count (stated event by event from the last). */
  ghost predicate AllValid(events: seq<SystemEvent>, counts: seq<nat>, hits: seq<nat>, areas: seq<nat>,
                           focused: Option<nat>)
    decreases |events|
  {
    |counts| == |events| &&
    (events != [] ==>
       AllValid(events[..|events| - 1], counts[..|counts| - 1], hits, areas, focused) &&
       ValidCount(events[|events| - 1], counts[|counts| - 1], hits, areas, focused))
  }

  /** `AllValid` says that each event's count is valid. */
  lemma {:induction false} AllValidAt(events: seq<SystemEvent>, counts: seq<nat>, hits: seq<nat>, areas: seq<nat>,
                                      focused: Option<nat>, i: nat)
    requires AllValid(events, counts, hits, areas, focused) && i < |events|
    ensures ValidCount(events[i], counts[i], hits, areas, focused)
    decreases |events|
  {
    if i < |events| - 1 {
      AllValidAt(events[..|events| - 1], counts[..|counts| - 1], hits, areas, focused, i);
    }
  }

  /** Routing one more event `e` with count `k` appends its delivered prefix. */
  lemma DeliveredSnoc(events: seq<SystemEvent>, counts: seq<nat>, e: SystemEvent, k: nat,
                      all: seq<SystemEvent>, allCounts: seq<nat>, hits: seq<nat>, areas: seq<nat>, focused: Option<nat>)
    requires all == events + [e] && allCounts == counts + [k]
    requires AllValid(events, counts, hits, areas, focused)
    requires ValidCount(e, k, hits, areas, focused)
    ensures AllValid(all, allCounts, hits, areas, focused)
    ensures Delivered(all, allCounts, hits, areas, focused) ==
            Delivered(events, counts, hits, areas, focused) + Route(e, hits, areas, focused)[..k]
  {
    assert all[..|events|] == events && all[|events|] == e;
    assert allCounts[..|events|] == counts && allCounts[|events|] == k;
  }

  /** Appending in two steps is appending the concatenation. */
  lemma AppendTwice<T>(base: seq<T>, before: seq<T>, after: seq<T>, d: seq<T>, r: seq<T>, d2: seq<T>)
    requires before == base + d && after == before + r && d2 == d + r
    ensures after == base + d2
  {
  }

  /** Routing event `i` after the first `i` appends its delivered prefix. */
  lemma DeliveredStep(events: seq<SystemEvent>, i: nat, counts: seq<nat>, k: nat,
                      hits: seq<nat>, areas: seq<nat>, focused: Option<nat>)
    requires i < |events|
    requires AllValid(events[..i], counts, hits, areas, focused)
    requires ValidCount(events[i], k, hits, areas, focused)
    ensures AllValid(events[..i + 1], counts + [k], hits, areas, focused)
    ensures Delivered(events[..i + 1], counts + [k], hits, areas, focused) ==
            Delivered(events[..i], counts, hits, areas, focused) + Route(events[i], hits, areas, focused)[..k]
  {
    assert events[..i + 1] == events[..i] + [events[i]];
    DeliveredSnoc(events[..i], counts, events[i], k, events[..i + 1], counts + [k], hits, areas, focused);
  }

  lemma RetargetAllStep(e: SystemEvent, targets: seq<nat>, i: nat)
    requires i < |targets|
    ensures RetargetAll(e, targets[..i + 1]) == RetargetAll(e, targets[..i]) + [Retarget(e, targets[i])]
  {
    assert targets[..i + 1][..i] == targets[..i];
  }

  lemma EntersStep(current: seq<nat>, i: nat, previous: seq<nat>)
    requires i < |current|
    ensures Enters(current[..i + 1], previous) ==
      Enters(current[..i], previous) + (if current[i] in previous then [] else [SystemEvent.MouseEnter(current[i])])
  {
    assert current[..i + 1][..i] == current[..i];
  }

  lemma LeavesStep(previous: seq<nat>, i: nat, current: seq<nat>)
    requires i < |previous|
    ensures Leaves(previous[..i + 1], current) ==
      Leaves(previous[..i], current) + (if previous[i] in current then [] else [SystemEvent.MouseLeave(previous[i])])
  {
    assert previous[..i + 1][..i] == previous[..i];
  }

  /** `RetargetAll` commutes with taking a prefix of the targets. */
  lemma RetargetPrefix(e: SystemEvent, targets: seq<nat>, k: nat)
    requires k <= |targets|
    ensures RetargetAll(e, targets)[..k] == RetargetAll(e, targets[..k])
  {
  }

  /** The callback ids of a list of handlers, in the same order. */
  function CallbackIds(hs: seq<EventHandler>): (r: seq<nat>)
    ensures |r| == |hs|
    ensures forall i :: 0 <= i < |hs| ==> r[i] == hs[i].callbackId
  {
    if hs == [] then [] else CallbackIds(hs[..|hs| - 1]) + [hs[|hs| - 1].callbackId]
  }

  /** Whether `handle_system_event` runs handler `h` for `e`: by kind alone for window events, by node and kind otherwise. */
  predicate Matches(h: EventHandler, e: SystemEvent) {
    h.eventType == EventTypeOf(e) && (e.WindowResize? || e.WindowFocus? || e.WindowLostFocus? || h.nodeId == e.nodeId)
  }

  /** The handlers `handle_system_event` looks up for `e`, in registration order. */
  function HandlersFor(hs: seq<EventHandler>, e: SystemEvent): (r: seq<EventHandler>)
    ensures |r| <= |hs|
    ensures forall i :: 0 <= i < |r| ==> Matches(r[i], e) && r[i] in hs
  {
    if hs == [] then []
    else HandlersFor(hs[..|hs| - 1], e) + (if Matches(hs[|hs| - 1], e) then [hs[|hs| - 1]] else [])
  }

  /** The lookup is the manager's filter: by kind for window events, by node and kind otherwise. */
  lemma {:induction false} HandlersForSelects(hs: seq<EventHandler>, e: SystemEvent)
    ensures HandlersFor(hs, e) ==
      if e.WindowResize? || e.WindowFocus? || e.WindowLostFocus? then Select(hs, ForEvent(EventTypeOf(e)))
      else Select(hs, ForNode(e.nodeId, EventTypeOf(e)))
    decreases |hs|
  {
    if hs != [] {
      HandlersForSelects(hs[..|hs| - 1], e);
    }
  }

  // ---- the dispatch loops of `process_events`, on values ----

  /** `handle_system_event` on the store: the callbacks of the matching handlers, in registration order. */
  function HandleOn(w: Wiring, hs: seq<EventHandler>, st: Store, e: SystemEvent): Store {
    RunAll(w, st, CallbackIds(HandlersFor(hs, e)))
  }

  /** One turn of a dispatch loop: whether the event is handled, the event, and the node and flag read after. */
  datatype Step = Step(dispatch: bool, event: SystemEvent, node: nat, flag: string)

  /** What one turn leaves: the store, `current_event_consumed`, and whether the loop breaks. */
  datatype StepEnd = StepEnd(store: Store, consumed: bool, stop: bool)

  /**
   * One turn: the event is handled when asked, then the node's flag is read from the store
   * the handlers left; a stored flag sets `consumed` to its boolean value (false for a
   * non-bool), a missing one leaves it alone, and the loop breaks exactly on a stored `true`.
   */
  function StepOn(w: Wiring, hs: seq<EventHandler>, st: Store, consumed: bool, s: Step): (r: StepEnd)
    ensures !s.dispatch ==> r.store == st
    ensures r.stop <==> PropertyByName(w, r.store.values, s.node, s.flag) == Some(Bool(true))
    ensures PropertyByName(w, r.store.values, s.node, s.flag).Some? ==> r.consumed == r.stop
    ensures PropertyByName(w, r.store.values, s.node, s.flag).None? ==> r.consumed == consumed
  {
    var after := if s.dispatch then HandleOn(w, hs, st, s.event) else st;
    match PropertyByName(w, after.values, s.node, s.flag)
    case Some(v) => StepEnd(after, ToBool(v).GetOr(false), ToBool(v).GetOr(false))
    case None => StepEnd(after, consumed, false)
  }

  /** What a dispatch loop leaves: the store, `current_event_consumed`, and how many turns ran. */
  datatype LoopEnd = LoopEnd(store: Store, consumed: bool, k: nat)

  /**
   * A dispatch loop from turn `i`: the turns run in order, each on the store the previous one
   * left, and the loop breaks after the first turn that stops; a loop cut short leaves
   * `consumed` set.
   */
  function RunSteps(w: Wiring, hs: seq<EventHandler>, steps: seq<Step>, i: nat, st: Store, consumed: bool): (r: LoopEnd)
    requires i <= |steps|
    ensures i <= r.k <= |steps| && (i < |steps| ==> i < r.k)
    ensures r.k < |steps| ==> r.consumed
    decreases |steps| - i
  {
    if i == |steps| then LoopEnd(st, consumed, i)
    else
      var s := StepOn(w, hs, st, consumed, steps[i]);
      if s.stop then LoopEnd(s.store, s.consumed, i + 1)
      else RunSteps(w, hs, steps, i + 1, s.store, s.consumed)
  }

  /** One turn of a loop, unfolded: it either ends the loop or hands its state to the next turn. */
  lemma RunStepsTurn(w: Wiring, hs: seq<EventHandler>, steps: seq<Step>, i: nat, st: Store, consumed: bool)
    requires i < |steps|
    ensures var s := StepOn(w, hs, st, consumed, steps[i]);
      RunSteps(w, hs, steps, i, st, consumed) ==
        if s.stop then LoopEnd(s.store, s.consumed, i + 1) else RunSteps(w, hs, steps, i + 1, s.store, s.consumed)
  {
  }

  /** A turn whose flag cannot be read: its node is outside the arena or declares no such property. */
  predicate Unflagged(w: Wiring, s: Step) {
    s.node >= |w.nodes| || s.flag !in w.nodes[s.node].properties
  }

  /** Without consume flags no loop is cut short, and `consumed` keeps its value. */
  lemma {:induction false} UnflaggedRunsAll(w: Wiring, hs: seq<EventHandler>, steps: seq<Step>, i: nat, st: Store,
                                            consumed: bool)
    requires i <= |steps|
    requires forall j :: i <= j < |steps| ==> Unflagged(w, steps[j])
    ensures RunSteps(w, hs, steps, i, st, consumed).k == |steps|
    ensures RunSteps(w, hs, steps, i, st, consumed).consumed == consumed
    decreases |steps| - i
  {
    if i < |steps| {
      var s := StepOn(w, hs, st, consumed, steps[i]);
      UnflaggedRunsAll(w, hs, steps, i + 1, s.store, consumed);
    }
  }

  /** A turn whose flag reads true after its handlers ends the loop right there. */
  lemma TrueFlagBreaks(w: Wiring, hs: seq<EventHandler>, steps: seq<Step>, i: nat, st: Store, consumed: bool)
    requires i < |steps|
    requires var s := steps[i];
      PropertyByName(w, (if s.dispatch then HandleOn(w, hs, st, s.event) else st).values, s.node, s.flag) == Some(Bool(true))
    ensures RunSteps(w, hs, steps, i, st, consumed).k == i + 1
    ensures RunSteps(w, hs, steps, i, st, consumed).consumed
  {
  }

  /** The state before turn `j` when the first `j` turns all run, whatever their flags say. */
  function Before(w: Wiring, hs: seq<EventHandler>, steps: seq<Step>, st: Store, consumed: bool, j: nat): (r: LoopEnd)
    requires j <= |steps|
    ensures r.k == j
  {
    if j == 0 then LoopEnd(st, consumed, 0)
    else
      var p := Before(w, hs, steps, st, consumed, j - 1);
      var s := StepOn(w, hs, p.store, p.consumed, steps[j - 1]);
      LoopEnd(s.store, s.consumed, j)
  }

  /** Turn `j`, reached with every earlier turn run, reads a true flag. */
  predicate StopsAt(w: Wiring, hs: seq<EventHandler>, steps: seq<Step>, st: Store, consumed: bool, j: nat)
    requires j < |steps|
  {
    var p := Before(w, hs, steps, st, consumed, j);
    StepOn(w, hs, p.store, p.consumed, steps[j]).stop
  }

  /** No turn from `i` up to, not including, `n` stops. */
  ghost predicate NoStopIn(w: Wiring, hs: seq<EventHandler>, steps: seq<Step>, st: Store, consumed: bool, i: nat, n: int)
    requires n <= |steps|
  {
    forall j :: i <= j < n ==> !StopsAt(w, hs, steps, st, consumed, j)
  }

  lemma NoStopExtends(w: Wiring, hs: seq<EventHandler>, steps: seq<Step>, st: Store, consumed: bool, i: nat, n: int)
    requires i < |steps| && n <= |steps| && !StopsAt(w, hs, steps, st, consumed, i)
    requires NoStopIn(w, hs, steps, st, consumed, i + 1, n)
    ensures NoStopIn(w, hs, steps, st, consumed, i, n)
  {
    forall j | i <= j < n ensures !StopsAt(w, hs, steps, st, consumed, j) {
      if j != i {
        assert i + 1 <= j < n;
      }
    }
  }

  /**
   * `r` ends a loop begun at turn `i` at the first stopping turn: no turn from `i` before its
   * last one stops, its last turn stops unless it is the final turn, and it leaves the state
   * those turns leave.
   */
  ghost predicate CutAt(w: Wiring, hs: seq<EventHandler>, steps: seq<Step>, st: Store, consumed: bool, i: nat, r: LoopEnd)
    requires i <= r.k <= |steps| && (i < |steps| ==> i < r.k)
  {
    NoStopIn(w, hs, steps, st, consumed, i, r.k - 1) &&
    (r.k == |steps| || StopsAt(w, hs, steps, st, consumed, r.k - 1)) &&
    r.store == Before(w, hs, steps, st, consumed, r.k).store &&
    r.consumed == Before(w, hs, steps, st, consumed, r.k).consumed
  }

  /** A turn that stops ends the loop's cut right after it. */
  lemma CutStops(w: Wiring, hs: seq<EventHandler>, steps: seq<Step>, st: Store, consumed: bool, i: nat, p: LoopEnd)
    requires i < |steps| && p == Before(w, hs, steps, st, consumed, i)
    requires StepOn(w, hs, p.store, p.consumed, steps[i]).stop
    ensures CutAt(w, hs, steps, st, consumed, i, RunSteps(w, hs, steps, i, p.store, p.consumed))
  {
    var s := StepOn(w, hs, p.store, p.consumed, steps[i]);
    NoStopEmpty(w, hs, steps, st, consumed, i);
    assert StopsAt(w, hs, steps, st, consumed, i);
    assert Before(w, hs, steps, st, consumed, i + 1) == LoopEnd(s.store, s.consumed, i + 1);
  }

  lemma NoStopEmpty(w: Wiring, hs: seq<EventHandler>, steps: seq<Step>, st: Store, consumed: bool, i: nat)
    requires i <= |steps|
    ensures NoStopIn(w, hs, steps, st, consumed, i, i)
  {
  }

  /** A turn that does not stop hands the cut on to the next turn. */
  lemma CutContinues(w: Wiring, hs: seq<EventHandler>, steps: seq<Step>, st: Store, consumed: bool, i: nat,
                     p: LoopEnd, q: LoopEnd, r: LoopEnd)
    requires i < |steps| && p == Before(w, hs, steps, st, consumed, i) && q == Before(w, hs, steps, st, consumed, i + 1)
    requires !StepOn(w, hs, p.store, p.consumed, steps[i]).stop
    requires r == RunSteps(w, hs, steps, i + 1, q.store, q.consumed) && CutAt(w, hs, steps, st, consumed, i + 1, r)
    ensures RunSteps(w, hs, steps, i, p.store, p.consumed) == r
    ensures CutAt(w, hs, steps, st, consumed, i, r)
  {
    assert !StopsAt(w, hs, steps, st, consumed, i);
    NoStopExtends(w, hs, steps, st, consumed, i, r.k - 1);
  }

  lemma {:induction false} FirstStopFrom(w: Wiring, hs: seq<EventHandler>, steps: seq<Step>, st: Store, consumed: bool,
                                         i: nat, p: LoopEnd)
    requires i <= |steps| && p == Before(w, hs, steps, st, consumed, i)
    ensures CutAt(w, hs, steps, st, consumed, i, RunSteps(w, hs, steps, i, p.store, p.consumed))
    decreases |steps| - i
  {
    if i < |steps| {
      if StepOn(w, hs, p.store, p.consumed, steps[i]).stop {
        CutStops(w, hs, steps, st, consumed, i, p);
      } else {
        var q := Before(w, hs, steps, st, consumed, i + 1);
        FirstStopFrom(w, hs, steps, st, consumed, i + 1, q);
        CutContinues(w, hs, steps, st, consumed, i, p, q, RunSteps(w, hs, steps, i + 1, q.store, q.consumed));
      }
    }
  }

  /**
   * A dispatch loop stops exactly after the first turn whose flag reads true once its
   * handlers have run, or after the last turn if there is none; it leaves the state the
   * turns up to there leave.
   */
  lemma FirstStop(w: Wiring, hs: seq<EventHandler>, steps: seq<Step>, st: Store, consumed: bool)
    ensures CutAt(w, hs, steps, st, consumed, 0, RunSteps(w, hs, steps, 0, st, consumed))
  {
    FirstStopFrom(w, hs, steps, st, consumed, 0, LoopEnd(st, consumed, 0));
  }

  /** The enter loop's turns: every hit node, handled with a `MouseEnter` unless it was hovered before. */
  function EnterSteps(hits: seq<nat>, previous: seq<nat>): seq<Step> {
    seq(|hits|, i requires 0 <= i < |hits| =>
      Step(hits[i] !in previous, SystemEvent.MouseEnter(hits[i]), hits[i], "consume_mouse_enter"))
  }

  /** A delivery loop's turns: every target, handled with the event retargeted to it. */
  function DeliverSteps(e: SystemEvent, targets: seq<nat>): seq<Step> {
    seq(|targets|, i requires 0 <= i < |targets| => Step(true, Retarget(e, targets[i]), targets[i], ConsumeFlag(e)))
  }

  /** The leave loop's turns: every previously hovered node, handled with a `MouseLeave` unless still hovered. */
  function LeaveSteps(previous: seq<nat>, current: seq<nat>): seq<Step> {
    seq(|previous|, i requires 0 <= i < |previous| =>
      Step(previous[i] !in current, SystemEvent.MouseLeave(previous[i]), previous[i], "consume_mouse_leave"))
  }

  /** The events a run of turns hands to `handle_system_event`, in order. */
  function Dispatched(steps: seq<Step>): (r: seq<SystemEvent>)
    ensures |r| <= |steps|
  {
    if steps == [] then []
    else
      var s := steps[|steps| - 1];
      Dispatched(steps[..|steps| - 1]) + (if s.dispatch then [s.event] else [])
  }

  lemma DispatchedStep(steps: seq<Step>, i: nat)
    requires i < |steps|
    ensures Dispatched(steps[..i + 1]) == Dispatched(steps[..i]) + (if steps[i].dispatch then [steps[i].event] else [])
  {
    assert steps[..i + 1][..i] == steps[..i];
  }

  /** The first `k` enter turns dispatch exactly the `MouseEnter`s of the first `k` hit nodes. */
  lemma {:induction false} EnterLog(hits: seq<nat>, previous: seq<nat>, k: nat)
    requires k <= |hits|
    ensures Dispatched(EnterSteps(hits, previous)[..k]) == Enters(hits[..k], previous)
  {
    if k > 0 {
      var steps := EnterSteps(hits, previous);
      var n := hits[k - 1];
      calc {
        Dispatched(steps[..k]);
      == { DispatchedStep(steps, k - 1); }
        Dispatched(steps[..k - 1]) + (if steps[k - 1].dispatch then [steps[k - 1].event] else []);
      == { EnterLog(hits, previous, k - 1); }
        Enters(hits[..k - 1], previous) + (if n in previous then [] else [SystemEvent.MouseEnter(n)]);
      == { EntersStep(hits, k - 1, previous); }
        Enters(hits[..k], previous);
      }
    }
  }

  /** The first `k` delivery turns dispatch the event retargeted to the first `k` targets. */
  lemma {:induction false} DeliverLog(e: SystemEvent, targets: seq<nat>, k: nat)
    requires k <= |targets|
    ensures Dispatched(DeliverSteps(e, targets)[..k]) == RetargetAll(e, targets[..k])
  {
    if k > 0 {
      DeliverLog(e, targets, k - 1);
      DispatchedStep(DeliverSteps(e, targets), k - 1);
      RetargetAllStep(e, targets, k - 1);
    }
  }

  /** The first `k` leave turns dispatch exactly the `MouseLeave`s of the first `k` old nodes. */
  lemma {:induction false} LeaveLog(previous: seq<nat>, current: seq<nat>, k: nat)
    requires k <= |previous|
    ensures Dispatched(LeaveSteps(previous, current)[..k]) == Leaves(previous[..k], current)
  {
    if k > 0 {
      var steps := LeaveSteps(previous, current);
      var n := previous[k - 1];
      calc {
        Dispatched(steps[..k]);
      == { DispatchedStep(steps, k - 1); }
        Dispatched(steps[..k - 1]) + (if steps[k - 1].dispatch then [steps[k - 1].event] else []);
      == { LeaveLog(previous, current, k - 1); }
        Leaves(previous[..k - 1], current) + (if n in current then [] else [SystemEvent.MouseLeave(n)]);
      == { LeavesStep(previous, k - 1, current); }
        Leaves(previous[..k], current);
      }
    }
  }

  /**
   * One polled event: a consumable kind runs the delivery loop over its targets; any other
   * kind is handled once, at its single target, without reading a flag.
   */
  function RouteOn(w: Wiring, hs: seq<EventHandler>, st: Store, consumed: bool, e: SystemEvent, hits: seq<nat>,
                   areas: seq<nat>, focused: Option<nat>): (r: LoopEnd)
    ensures ValidCount(e, r.k, hits, areas, focused)
    ensures !Consumable(e) ==> r.consumed == consumed
    ensures Consumable(e) && r.k < |Route(e, hits, areas, focused)| ==> r.consumed
  {
    var targets := Targets(e, hits, areas, focused);
    RouteRetargets(e, hits, areas, focused);
    if Consumable(e) then RunSteps(w, hs, DeliverSteps(e, targets), 0, st, consumed)
    else if targets != [] then LoopEnd(HandleOn(w, hs, st, Retarget(e, targets[0])), consumed, 1)
    else LoopEnd(st, consumed, 0)
  }

  /** What the event loop leaves: the store, `current_event_consumed`, and each event's delivery count. */
  datatype RouteEnd = RouteEnd(store: Store, consumed: bool, counts: seq<nat>)

  /** The events of a frame, routed in order, each on the state the previous one left. */
  function RouteAll(w: Wiring, hs: seq<EventHandler>, events: seq<SystemEvent>, st: Store, consumed: bool,
                    hits: seq<nat>, areas: seq<nat>, focused: Option<nat>): (r: RouteEnd)
    ensures AllValid(events, r.counts, hits, areas, focused)
    decreases |events|
  {
    if events == [] then RouteEnd(st, consumed, [])
    else
      var prev := RouteAll(w, hs, events[..|events| - 1], st, consumed, hits, areas, focused);
      var one := RouteOn(w, hs, prev.store, prev.consumed, events[|events| - 1], hits, areas, focused);
      assert (prev.counts + [one.k])[..|events| - 1] == prev.counts;
      RouteEnd(one.store, one.consumed, prev.counts + [one.k])
  }

  /** Routing one more event: its route runs on the state the earlier ones left. */
  lemma RouteAllStep(w: Wiring, hs: seq<EventHandler>, events: seq<SystemEvent>, i: nat, st: Store, consumed: bool,
                     hits: seq<nat>, areas: seq<nat>, focused: Option<nat>)
    requires i < |events|
    ensures var prev := RouteAll(w, hs, events[..i], st, consumed, hits, areas, focused);
      var one := RouteOn(w, hs, prev.store, prev.consumed, events[i], hits, areas, focused);
      RouteAll(w, hs, events[..i + 1], st, consumed, hits, areas, focused) ==
        RouteEnd(one.store, one.consumed, prev.counts + [one.k])
  {
    assert events[..i + 1][..i] == events[..i];
  }

  /** What a frame of `process_events` leaves: the new hovered list, the counts and the final state. */
  datatype FrameEnd = FrameEnd(hovered: seq<nat>, counts: seq<nat>, left: nat, store: Store, consumed: bool)

  /**
   * The three loops of a frame after polling: the enter loop over the hit list from a cleared
   * flag (its cut is the new hovered list), then the polled events on the state it left, then
   * the leave loop from a cleared flag.
   */
  function DispatchOn(w: Wiring, hs: seq<EventHandler>, previous: seq<nat>, st: Store, events: seq<SystemEvent>,
                      hits: seq<nat>, areas: seq<nat>, focused: Option<nat>): (r: FrameEnd)
    ensures |r.hovered| <= |hits| && r.hovered == hits[..|r.hovered|] && (hits != [] ==> r.hovered != [])
    ensures AllValid(events, r.counts, hits, areas, focused)
    ensures r.left <= |previous| && (previous != [] ==> r.left >= 1)
  {
    var enter := RunSteps(w, hs, EnterSteps(hits, previous), 0, st, false);
    var current := hits[..enter.k];
    var routed := RouteAll(w, hs, events, enter.store, enter.consumed, hits, areas, focused);
    var leave := RunSteps(w, hs, LeaveSteps(previous, current), 0, routed.store, false);
    FrameEnd(current, routed.counts, leave.k, leave.store, leave.consumed)
  }

  /** A whole frame after polling: the three loops, then one drain of the queue. */
  function FrameOn(w: Wiring, hs: seq<EventHandler>, previous: seq<nat>, st: Store, events: seq<SystemEvent>,
                   hits: seq<nat>, areas: seq<nat>, focused: Option<nat>): (r: FrameEnd)
    ensures |r.hovered| <= |hits| && r.hovered == hits[..|r.hovered|] && (hits != [] ==> r.hovered != [])
    ensures AllValid(events, r.counts, hits, areas, focused)
    ensures r.left <= |previous| && (previous != [] ==> r.left >= 1)
  {
    var d := DispatchOn(w, hs, previous, st, events, hits, areas, focused);
    d.(store := RunCallbacksOn(w, d.store))
  }

  /** Ids are exactly 0 .. size-1, as long as nothing has been removed. */
  ghost predicate DenseIds<V>(m: map<nat, V>) {
    forall k: nat :: k in m <==> k < |m|
  }

  /** `add_property` / `add_callback` on a dense map never overwrite and keep it dense. */
  lemma AddKeepsDense<V>(m: map<nat, V>, v: V)
    requires DenseIds(m)
    ensures |m| !in m
    ensures |m[|m| := v]| == |m| + 1 && DenseIds(m[|m| := v])
  {
    var n := |m|;
    assert n !in m;
    var m' := m[n := v];
    assert |m'| == n + 1;
    forall k: nat
      ensures k in m' <==> k < n + 1
    {
      if k == n {
        assert k in m';
      } else {
        assert k in m' <==> k in m;
        assert k in m <==> k < n;
      }
    }
  }

  /** After a removal the size-based id can name a live entry, which the insert overwrites. */
  lemma RemoveThenAddOverwrites(a: AbstractValue, b: AbstractValue, c: AbstractValue)
    requires b != c
    ensures var m := map[0 := a, 1 := b] - {0};
      |m| == 1 && 1 in m && m[|m| := c] == map[1 := c] && m[|m| := c][1] != b
  {
    var m := map[0 := a, 1 := b] - {0};
    assert m == map[1 := b];
    assert |m| == 1;
  }

  /** Some handler id names a registered callback (so `current_event` was set and cleared). */
  ghost predicate AnyRegistered(ids: seq<nat>, callbacks: map<nat, Callback>) {
    exists c :: c in ids && c in callbacks
  }

  lemma AnyRegisteredStep(ids: seq<nat>, i: nat, callbacks: map<nat, Callback>)
    requires i < |ids|
    ensures AnyRegistered(ids[..i + 1], callbacks) == (AnyRegistered(ids[..i], callbacks) || ids[i] in callbacks)
  {
    assert ids[..i + 1] == ids[..i] + [ids[i]];
  }

  /** Running one more id of a list. */
  lemma RunAllStep(w: Wiring, st: Store, ids: seq<nat>, i: nat)
    requires i < |ids|
    ensures RunAll(w, st, ids[..i + 1]) ==
      if ids[i] in w.callbacks then ApplyActions(w, RunAll(w, st, ids[..i]), w.callbacks[ids[i]].actions)
      else RunAll(w, st, ids[..i])
  {
    assert ids[..i + 1][..i] == ids[..i];
  }

  class RmlEngine {
    const arena: ArenaTree
    const eventManager: EventManager
    var properties: map<nat, AbstractValue>
    var callbacks: map<nat, Callback>
    var bindings: map<nat, seq<nat>>
    var callbacksToEval: seq<nat>
    var currentEvent: Option<SystemEvent>
    var currentEventConsumed: bool
    /** Every event handed to `handle_system_event`, in order. */
    ghost var dispatchLog: seq<SystemEvent>
    /** How many times `run_callbacks` has taken the queue. */
    ghost var drains: nat

    function CurrentWiring(): Wiring
      reads this, arena
    {
      Wiring(arena.nodes, arena.idToNodeId, bindings, callbacks)
    }

    function CurrentStore(): Store
      reads this
    {
      Store(properties, callbacksToEval)
    }

    /** Only the store (values and queue) differs between the two states. */
    twostate predicate OnlyStoreChanged()
      reads this
    {
      bindings == old(bindings) && callbacks == old(callbacks) && DispatchStateKept()
    }

    /** The event being handled, its consume flag, the dispatch log and the drain count are kept. */
    twostate predicate DispatchStateKept()
      reads this
    {
      currentEvent == old(currentEvent) && currentEventConsumed == old(currentEventConsumed) &&
      dispatchLog == old(dispatchLog) && drains == old(drains)
    }

    /** `RmlEngine::new`: an empty arena, store and registry. */
    constructor ()
      ensures fresh(arena) && fresh(eventManager)
      ensures arena.Valid() && arena.nodes == [] && arena.idToNodeId == map[]
      ensures eventManager.handlers == [] && eventManager.hoveredNodes == [] && eventManager.focusedNode.None?
      ensures eventManager.mousePosition == (0.0, 0.0) && eventManager.previousMousePosition == (0.0, 0.0)
      ensures eventManager.mouseButtonsPressed == {} && eventManager.windowSize == (800.0, 600.0)
      ensures properties == map[] && callbacks == map[] && bindings == map[] && callbacksToEval == []
      ensures currentEvent.None? && !currentEventConsumed
      ensures dispatchLog == [] && drains == 0
    {
      arena := new ArenaTree();
      eventManager := new EventManager();
      properties := map[];
      callbacks := map[];
      bindings := map[];
      callbacksToEval := [];
      currentEvent := None;
      currentEventConsumed := false;
      dispatchLog := [];
      drains := 0;
    }

    /** `add_property_to_node`: records the property id under `name` on an existing node. */
    method AddPropertyToNode(n: nat, name: string, pid: nat)
      requires arena.Valid()
      modifies arena
      ensures arena.Valid()
      ensures n < |old(arena.nodes)| ==>
        arena.nodes == old(arena.nodes)[n := old(arena.nodes)[n].AddProperty(name, pid)]
      ensures n >= |old(arena.nodes)| ==> arena.nodes == old(arena.nodes)
      ensures arena.idToNodeId == old(arena.idToNodeId)
    {
      if n < |arena.nodes| {
        arena.nodes := arena.nodes[n := arena.nodes[n].AddProperty(name, pid)];
      }
    }

    /**
     * `add_property`: the new id is the current number of stored properties, and the
     * insert overwrites whatever that id held.
     */
    method AddProperty(value: AbstractValue) returns (id: nat)
      modifies this
      ensures id == |old(properties)|
      ensures properties == old(properties)[id := value]
      ensures callbacksToEval == old(callbacksToEval) && OnlyStoreChanged()
    {
      id := |properties|;
      properties := properties[id := value];
    }

    /** `remove_property`. */
    method RemoveProperty(id: nat)
      modifies this
      ensures properties == old(properties) - {id}
      ensures callbacksToEval == old(callbacksToEval) && OnlyStoreChanged()
    {
      properties := properties - {id};
    }

    /** `add_callback`: the new id is the current number of callbacks; the insert may overwrite. */
    method AddCallback(cb: Callback) returns (id: nat)
      modifies this
      ensures id == |old(callbacks)|
      ensures callbacks == old(callbacks)[id := cb]
      ensures properties == old(properties) && bindings == old(bindings) && callbacksToEval == old(callbacksToEval)
      ensures DispatchStateKept()
    {
      id := |callbacks|;
      callbacks := callbacks[id := cb];
    }

    /** `bind_property_to_callback`: appends to the property's list, duplicates allowed. */
    method BindPropertyToCallback(pid: nat, cid: nat)
      modifies this
      ensures bindings == old(bindings)[pid := BoundTo(old(CurrentWiring()), pid) + [cid]]
      ensures properties == old(properties) && callbacks == old(callbacks) && callbacksToEval == old(callbacksToEval)
      ensures DispatchStateKept()
    {
      var bound := if pid in bindings then bindings[pid] else [];
      bindings := bindings[pid := bound + [cid]];
    }

    /** `bind_node_property_to_callback`: a no-op unless the node and its property resolve. */
    method BindNodePropertyToCallback(nodeName: string, propName: string, cid: nat)
      modifies this
      ensures match PropertyIdOfNode(old(CurrentWiring()), nodeName, propName)
        case None => bindings == old(bindings)
        case Some(pid) => bindings == old(bindings)[pid := BoundTo(old(CurrentWiring()), pid) + [cid]]
      ensures properties == old(properties) && callbacks == old(callbacks) && callbacksToEval == old(callbacksToEval)
      ensures DispatchStateKept()
    {
      if nodeName in arena.idToNodeId {
        var nodeId := arena.idToNodeId[nodeName];
        if nodeId < |arena.nodes| {
          var node := arena.nodes[nodeId];
          if propName in node.properties {
            BindPropertyToCallback(node.properties[propName], cid);
          }
        }
      }
    }

    /**
     * `set_property_of_node`: the store changes as `SetOn` says. The source returns
     * false on every path; this returns whether the value changed (see `SetReturnDiscarded`).
     */
    method SetPropertyOfNode(nodeName: string, propName: string, value: AbstractValue) returns (changed: bool)
      modifies this
      ensures CurrentStore() == SetOn(old(CurrentWiring()), old(CurrentStore()), nodeName, propName, value).store
      ensures changed == SetOn(old(CurrentWiring()), old(CurrentStore()), nodeName, propName, value).changed
      ensures OnlyStoreChanged()
    {
      changed := false;
      if nodeName in arena.idToNodeId {
        var nodeId := arena.idToNodeId[nodeName];
        if nodeId < |arena.nodes| {
          var node := arena.nodes[nodeId];
          if propName in node.properties {
            var propertyId := node.properties[propName];
            if propertyId in properties {
              if properties[propertyId] == value {
                return false;
              }
              properties := properties[propertyId := value];
              var queue := callbacksToEval;
              if propertyId in bindings {
                var callbackIds := bindings[propertyId];
                var i := 0;
                while i < |callbackIds|
                  invariant 0 <= i <= |callbackIds|
                  invariant queue == old(callbacksToEval) + callbackIds[..i]
                {
                  assert callbackIds[..i + 1] == callbackIds[..i] + [callbackIds[i]];
                  queue := queue + [callbackIds[i]];
                  i := i + 1;
                }
                assert callbackIds[..i] == callbackIds;
              }
              callbacksToEval := queue;
              changed := true;
            }
          }
        }
      }
    }

    /** The `emit!` macro. */
    method Emit(nodeName: string, signal: string)
      modifies this
      ensures CurrentStore() == EmitOn(old(CurrentWiring()), old(CurrentStore()), nodeName, signal)
      ensures OnlyStoreChanged()
    {
      var current := GetBool(CurrentWiring(), properties, nodeName, signal, false);
      var _ := SetPropertyOfNode(nodeName, signal, Bool(!current));
    }

    /** Calling a callback: its actions, in order, through the engine's own operations. */
    method Invoke(cb: Callback)
      modifies this
      ensures CurrentStore() == ApplyActions(old(CurrentWiring()), old(CurrentStore()), cb.actions)
      ensures OnlyStoreChanged()
    {
      var i := 0;
      while i < |cb.actions|
        invariant 0 <= i <= |cb.actions|
        invariant CurrentStore() == ApplyActions(old(CurrentWiring()), old(CurrentStore()), cb.actions[..i])
        invariant OnlyStoreChanged()
      {
        assert cb.actions[..i + 1][..i] == cb.actions[..i];
        match cb.actions[i] {
          case SetAction(node, name, value) =>
            var _ := SetPropertyOfNode(node, name, value);
          case EmitAction(node, signal) =>
            Emit(node, signal);
        }
        i := i + 1;
      }
      assert cb.actions[..i] == cb.actions;
    }

    /**
     * `run_callbacks`: takes the queue, leaving it empty, then runs each taken id that has a
     * registered callback, in queue order. Ids queued meanwhile wait for the next call.
     */
    method RunCallbacks()
      modifies this
      ensures CurrentStore() == RunCallbacksOn(old(CurrentWiring()), old(CurrentStore()))
      ensures drains == old(drains) + 1
      ensures bindings == old(bindings) && callbacks == old(callbacks) && dispatchLog == old(dispatchLog)
      ensures currentEvent == old(currentEvent) && currentEventConsumed == old(currentEventConsumed)
    {
      var toEval := callbacksToEval;
      callbacksToEval := [];
      drains := drains + 1;
      ghost var w := CurrentWiring();
      ghost var start := CurrentStore();
      var i := 0;
      while i < |toEval|
        invariant 0 <= i <= |toEval|
        invariant CurrentStore() == RunAll(w, start, toEval[..i])
        invariant bindings == old(bindings) && callbacks == old(callbacks) && dispatchLog == old(dispatchLog)
        invariant currentEvent == old(currentEvent) && currentEventConsumed == old(currentEventConsumed)
        invariant drains == old(drains) + 1
      {
        assert toEval[..i + 1][..i] == toEval[..i];
        var id := toEval[i];
        if id in callbacks {
          Invoke(callbacks[id]);
        }
        i := i + 1;
      }
      assert toEval[..i] == toEval;
    }

    /** `add_event_handler` on the engine: by node name, a no-op for an unknown name. */
    method AddEventHandler(eventType: EventType, nodeName: string, cid: nat)
      modifies eventManager
      ensures nodeName in arena.idToNodeId ==>
        eventManager.handlers == old(eventManager.handlers) + [EventHandler(cid, eventType, arena.idToNodeId[nodeName])]
      ensures nodeName !in arena.idToNodeId ==> eventManager.handlers == old(eventManager.handlers)
      ensures eventManager.hoveredNodes == old(eventManager.hoveredNodes)
      ensures eventManager.focusedNode == old(eventManager.focusedNode)
      ensures eventManager.InputKept()
    {
      if nodeName in arena.idToNodeId {
        eventManager.AddEventHandler(eventType, arena.idToNodeId[nodeName], cid);
      }
    }

    /** `set_focused_node` on the engine: an unknown name clears the focus. */
    method SetFocusedNode(nodeName: string)
      modifies eventManager
      ensures eventManager.focusedNode ==
        (if nodeName in arena.idToNodeId then Some(arena.idToNodeId[nodeName]) else None)
      ensures eventManager.handlers == old(eventManager.handlers)
      ensures eventManager.hoveredNodes == old(eventManager.hoveredNodes)
      ensures eventManager.InputKept()
    {
      var nodeId := if nodeName in arena.idToNodeId then Some(arena.idToNodeId[nodeName]) else None;
      eventManager.SetFocusedNode(nodeId);
    }

    /**
     * `handle_system_event`: the callbacks of the matching handlers run immediately, in
     * registration order, each with `current_event` set to the event and cleared after.
     */
    method HandleSystemEvent(e: SystemEvent)
      modifies this
      ensures dispatchLog == old(dispatchLog) + [e]
      ensures CurrentStore() ==
        RunAll(old(CurrentWiring()), old(CurrentStore()), CallbackIds(HandlersFor(eventManager.handlers, e)))
      ensures bindings == old(bindings) && callbacks == old(callbacks) && drains == old(drains)
      ensures currentEventConsumed == old(currentEventConsumed)
      ensures currentEvent ==
        if AnyRegistered(CallbackIds(HandlersFor(eventManager.handlers, e)), callbacks) then None else old(currentEvent)
    {
      var handlers := HandlersFor(eventManager.handlers, e);
      var ids := CallbackIds(handlers);
      ghost var w := CurrentWiring();
      ghost var start := CurrentStore();
      dispatchLog := dispatchLog + [e];
      var i := 0;
      while i < |ids|
        invariant 0 <= i <= |ids|
        invariant CurrentWiring() == w
        invariant CurrentStore() == RunAll(w, start, ids[..i])
        invariant drains == old(drains)
        invariant dispatchLog == old(dispatchLog) + [e]
        invariant currentEventConsumed == old(currentEventConsumed)
        invariant currentEvent == if AnyRegistered(ids[..i], callbacks) then None else old(currentEvent)
      {
        RunAllStep(w, start, ids, i);
        AnyRegisteredStep(ids, i, callbacks);
        RunHandler(e, ids[i]);
        i := i + 1;
      }
      assert ids[..i] == ids;
    }

    /** One handler id of `handle_system_event`: a registered callback runs with `current_event` set. */
    method RunHandler(e: SystemEvent, cid: nat)
      modifies this
      ensures CurrentStore() ==
        if cid in old(callbacks) then ApplyActions(old(CurrentWiring()), old(CurrentStore()), old(callbacks)[cid].actions)
        else old(CurrentStore())
      ensures currentEvent == if cid in old(callbacks) then None else old(currentEvent)
      ensures bindings == old(bindings) && callbacks == old(callbacks) && drains == old(drains)
      ensures dispatchLog == old(dispatchLog) && currentEventConsumed == old(currentEventConsumed)
    {
      if cid in callbacks {
        currentEvent := Some(e);
        Invoke(callbacks[cid]);
        currentEvent := None;
      }
    }

    /** `get_mouse_area_nodes_at_position`: scan the arena in creation order, then reverse. */
    method GetMouseAreaNodesAtPosition(x: real, y: real) returns (hits: seq<nat>)
      ensures hits == HitList(CurrentWiring(), properties, x, y)
    {
      var collected: seq<nat> := [];
      var i := 0;
      while i < |arena.nodes|
        invariant 0 <= i <= |arena.nodes|
        invariant collected == Collect(CurrentWiring(), properties, i, Some((x, y)))
      {
        var node := arena.nodes[i];
        if node.nodeType == MouseArea && node.id in arena.idToNodeId {
          var nodeId := arena.idToNodeId[node.id];
          if IsPointInsideNode(CurrentWiring(), properties, nodeId, x, y) {
            collected := collected + [nodeId];
          }
        }
        i := i + 1;
      }
      hits := Reverse(collected);
    }

    /** `get_mouse_area_nodes`: every MouseArea node whose id resolves, topmost first. */
    method GetMouseAreaNodes() returns (areas: seq<nat>)
      ensures areas == MouseAreaNodes(CurrentWiring(), properties)
    {
      var collected: seq<nat> := [];
      var i := 0;
      while i < |arena.nodes|
        invariant 0 <= i <= |arena.nodes|
        invariant collected == Collect(CurrentWiring(), properties, i, None)
      {
        var node := arena.nodes[i];
        if node.nodeType == MouseArea && node.id in arena.idToNodeId {
          collected := collected + [arena.idToNodeId[node.id]];
        }
        i := i + 1;
      }
      areas := Reverse(collected);
    }

    /**
     * Reads a node's consume flag as the dispatch loops do: when the property is stored,
     * the flag becomes its boolean value (false if not a bool); otherwise it is left alone.
     */
    method ReadConsumeFlag(n: nat, flag: string) returns (stop: bool)
      modifies this
      ensures stop <==> PropertyByName(CurrentWiring(), properties, n, flag).Some? && currentEventConsumed
      ensures match PropertyByName(CurrentWiring(), properties, n, flag)
        case Some(v) => currentEventConsumed == ToBool(v).GetOr(false)
        case None => currentEventConsumed == old(currentEventConsumed)
      ensures CurrentStore() == old(CurrentStore())
      ensures bindings == old(bindings) && callbacks == old(callbacks) && currentEvent == old(currentEvent)
      ensures dispatchLog == old(dispatchLog) && drains == old(drains)
    {
      var consume := PropertyByName(CurrentWiring(), properties, n, flag);
      stop := false;
      if consume.Some? {
        currentEventConsumed := ToBool(consume.value).GetOr(false);
        stop := currentEventConsumed;
      }
    }

    /**
     * One step of a dispatch loop: the event is handled when `dispatch` holds, then node
     * `n`'s consume flag is read; `stop` says the loop ends here.
     */
    method DispatchStep(e: SystemEvent, dispatch: bool, n: nat, flag: string) returns (stop: bool)
      modifies this
      ensures var s := StepOn(old(CurrentWiring()), eventManager.handlers, old(CurrentStore()), old(currentEventConsumed),
                              Step(dispatch, e, n, flag));
        CurrentStore() == s.store && currentEventConsumed == s.consumed && stop == s.stop
      ensures currentEvent ==
        if dispatch && AnyRegistered(CallbackIds(HandlersFor(eventManager.handlers, e)), callbacks) then None
        else old(currentEvent)
      ensures dispatchLog == old(dispatchLog) + (if dispatch then [e] else [])
      ensures bindings == old(bindings) && callbacks == old(callbacks) && drains == old(drains)
    {
      if dispatch {
        HandleSystemEvent(e);
      }
      stop := ReadConsumeFlag(n, flag);
    }

    /**
     * Turn `i` of a dispatch loop whose whole outcome is `top`: the turn either ends the loop
     * with `top`, or leaves the state from which the remaining turns reach `top`.
     */
    method DispatchTurn(ghost w: Wiring, ghost hs: seq<EventHandler>, steps: seq<Step>, i: nat, ghost top: LoopEnd,
                        ghost base: seq<SystemEvent>)
      returns (stop: bool)
      requires w == CurrentWiring() && hs == eventManager.handlers && i < |steps|
      requires top == RunSteps(w, hs, steps, i, Store(properties, callbacksToEval), currentEventConsumed)
      requires dispatchLog == base + Dispatched(steps[..i])
      modifies this
      ensures if stop then top == LoopEnd(Store(properties, callbacksToEval), currentEventConsumed, i + 1)
        else top == RunSteps(w, hs, steps, i + 1, Store(properties, callbacksToEval), currentEventConsumed)
      ensures dispatchLog == base + Dispatched(steps[..i + 1])
      ensures bindings == old(bindings) && callbacks == old(callbacks) && drains == old(drains)
      ensures currentEvent == old(currentEvent) || currentEvent.None?
    {
      RunStepsTurn(w, hs, steps, i, CurrentStore(), currentEventConsumed);
      DispatchedStep(steps, i);
      stop := DispatchStep(steps[i].event, steps[i].dispatch, steps[i].node, steps[i].flag);
    }

    /**
     * The loop shape the enter, delivery and leave loops of `process_events` share: turn `i`
     * handles `steps[i].event` when `steps[i].dispatch` holds, then reads `steps[i].flag` on
     * `steps[i].node`; a true flag ends the loop after `k` turns.
     */
    method DispatchSteps(steps: seq<Step>) returns (k: nat)
      modifies this
      ensures var r := RunSteps(old(CurrentWiring()), eventManager.handlers, steps, 0, old(CurrentStore()),
                                old(currentEventConsumed));
        k == r.k && CurrentStore() == r.store && currentEventConsumed == r.consumed
      ensures dispatchLog == old(dispatchLog) + Dispatched(steps[..k])
      ensures bindings == old(bindings) && callbacks == old(callbacks) && drains == old(drains)
      ensures currentEvent == old(currentEvent) || currentEvent.None?
    {
      ghost var w := CurrentWiring();
      ghost var hs := eventManager.handlers;
      ghost var top := RunSteps(w, hs, steps, 0, CurrentStore(), currentEventConsumed);
      k := 0;
      while k < |steps|
        invariant k <= |steps|
        invariant top == RunSteps(w, hs, steps, k, Store(properties, callbacksToEval), currentEventConsumed)
        invariant dispatchLog == old(dispatchLog) + Dispatched(steps[..k])
        invariant bindings == old(bindings) && callbacks == old(callbacks) && drains == old(drains)
        invariant currentEvent == old(currentEvent) || currentEvent.None?
      {
        var stop := DispatchTurn(w, hs, steps, k, top, old(dispatchLog));
        k := k + 1;
        if stop {
          return;
        }
      }
    }

    /**
     * The enter loop of `process_events`: each hit node joins the new hovered list and gets a
     * `MouseEnter` unless it was hovered before; a node whose `consume_mouse_enter` is true
     * ends the loop, so later hit nodes are not hovered.
     */
    method DispatchEnter(hits: seq<nat>) returns (current: seq<nat>)
      modifies this
      ensures |current| <= |hits| && current == hits[..|current|]
      ensures var r := RunSteps(old(CurrentWiring()), eventManager.handlers, EnterSteps(hits, eventManager.hoveredNodes), 0,
                                old(CurrentStore()), old(currentEventConsumed));
        |current| == r.k && CurrentStore() == r.store && currentEventConsumed == r.consumed
      ensures dispatchLog == old(dispatchLog) + Enters(current, eventManager.hoveredNodes)
      ensures bindings == old(bindings) && callbacks == old(callbacks) && drains == old(drains)
      ensures currentEvent == old(currentEvent) || currentEvent.None?
    {
      var k := DispatchSteps(EnterSteps(hits, eventManager.hoveredNodes));
      current := hits[..k];
      EnterLog(hits, eventManager.hoveredNodes, k);
    }

    /**
     * One delivery loop of `process_events`: the event goes to each target in turn,
     * stopping after a target whose consume flag for this kind is true.
     */
    method DeliverEach(e: SystemEvent, targets: seq<nat>) returns (k: nat)
      modifies this
      ensures var r := RunSteps(old(CurrentWiring()), eventManager.handlers, DeliverSteps(e, targets), 0,
                                old(CurrentStore()), old(currentEventConsumed));
        k == r.k && CurrentStore() == r.store && currentEventConsumed == r.consumed
      ensures dispatchLog == old(dispatchLog) + RetargetAll(e, targets[..k])
      ensures bindings == old(bindings) && callbacks == old(callbacks) && drains == old(drains)
      ensures currentEvent == old(currentEvent) || currentEvent.None?
    {
      k := DispatchSteps(DeliverSteps(e, targets));
      DeliverLog(e, targets, k);
    }

    /** The routing of one polled event in `process_events`. */
    method RouteEvent(e: SystemEvent, hits: seq<nat>, areas: seq<nat>, focused: Option<nat>) returns (ghost k: nat)
      modifies this
      ensures ValidCount(e, k, hits, areas, focused)
      ensures Consumable(e) && k < |Route(e, hits, areas, focused)| ==> currentEventConsumed
      ensures var r := RouteOn(old(CurrentWiring()), eventManager.handlers, old(CurrentStore()), old(currentEventConsumed),
                               e, hits, areas, focused);
        k == r.k && CurrentStore() == r.store && currentEventConsumed == r.consumed
      ensures dispatchLog == old(dispatchLog) + Route(e, hits, areas, focused)[..k]
      ensures bindings == old(bindings) && callbacks == old(callbacks) && drains == old(drains)
      ensures currentEvent == old(currentEvent) || currentEvent.None?
    {
      var targets := Targets(e, hits, areas, focused);
      RouteRetargets(e, hits, areas, focused);
      if Consumable(e) {
        k := DeliverEach(e, targets);
        RetargetPrefix(e, targets, k);
      } else if targets != [] {
        HandleSystemEvent(Retarget(e, targets[0]));
        k := 1;
      } else {
        k := 0;
      }
    }

    /**
     * The leave loop of `process_events`: the consume flag is reset, then each previously
     * hovered node absent from the new list gets a `MouseLeave`; a node whose
     * `consume_mouse_leave` is true ends the loop.
     */
    method DispatchLeave(previous: seq<nat>, current: seq<nat>) returns (k: nat)
      modifies this
      ensures var r := RunSteps(old(CurrentWiring()), eventManager.handlers, LeaveSteps(previous, current), 0,
                                old(CurrentStore()), false);
        k == r.k && CurrentStore() == r.store && currentEventConsumed == r.consumed
      ensures dispatchLog == old(dispatchLog) + Leaves(previous[..k], current)
      ensures bindings == old(bindings) && callbacks == old(callbacks) && drains == old(drains)
      ensures currentEvent == old(currentEvent) || currentEvent.None?
    {
      currentEventConsumed := false;
      k := DispatchSteps(LeaveSteps(previous, current));
      LeaveLog(previous, current, k);
    }

    /** `get_mouse_area_nodes_under_mouse`: the hit list at the manager's mouse position. */
    method GetMouseAreaNodesUnderMouse() returns (hits: seq<nat>)
      ensures hits == HitList(CurrentWiring(), properties, eventManager.mousePosition.0, eventManager.mousePosition.1)
    {
      hits := GetMouseAreaNodesAtPosition(eventManager.mousePosition.0, eventManager.mousePosition.1);
    }

    /**
     * The event loop's state after its first `i` events, routed from store `st` and flag
     * `consumed` with handlers `hs`: the store, the flag and the counts are what routing them
     * leaves, and the log has grown from `base` by what they delivered.
     */
    ghost predicate RoutedSoFar(w: Wiring, hs: seq<EventHandler>, st: Store, consumed: bool, events: seq<SystemEvent>,
                                i: nat, counts: seq<nat>, hits: seq<nat>, areas: seq<nat>, focused: Option<nat>,
                                base: seq<SystemEvent>)
      reads this
      requires i <= |events|
    {
      var r := RouteAll(w, hs, events[..i], st, consumed, hits, areas, focused);
      CurrentStore() == r.store && currentEventConsumed == r.consumed && counts == r.counts &&
      dispatchLog == base + Delivered(events[..i], counts, hits, areas, focused)
    }

    /** One turn of the event loop: routing event `i` on the state the first `i` left. */
    method RouteNext(ghost w: Wiring, ghost st: Store, ghost consumed: bool, events: seq<SystemEvent>, i: nat,
                     ghost counts: seq<nat>, hits: seq<nat>, areas: seq<nat>, focused: Option<nat>,
                     ghost base: seq<SystemEvent>)
      returns (ghost k: nat)
      requires i < |events| && w == CurrentWiring()
      requires RoutedSoFar(w, eventManager.handlers, st, consumed, events, i, counts, hits, areas, focused, base)
      modifies this
      ensures RoutedSoFar(w, eventManager.handlers, st, consumed, events, i + 1, counts + [k], hits, areas, focused, base)
      ensures bindings == old(bindings) && callbacks == old(callbacks) && drains == old(drains)
      ensures currentEvent == old(currentEvent) || currentEvent.None?
    {
      RouteAllStep(w, eventManager.handlers, events, i, st, consumed, hits, areas, focused);
      ghost var before := dispatchLog;
      k := RouteEvent(events[i], hits, areas, focused);
      DeliveredStep(events, i, counts, k, hits, areas, focused);
      AppendTwice(base, before, dispatchLog, Delivered(events[..i], counts, hits, areas, focused),
                  Route(events[i], hits, areas, focused)[..k], Delivered(events[..i + 1], counts + [k], hits, areas, focused));
    }

    /** The event loop of `process_events`: each polled event is routed in turn. */
    method RouteEvents(events: seq<SystemEvent>, hits: seq<nat>, areas: seq<nat>, focused: Option<nat>)
      returns (ghost counts: seq<nat>)
      modifies this
      ensures var r := RouteAll(old(CurrentWiring()), eventManager.handlers, events, old(CurrentStore()),
                                old(currentEventConsumed), hits, areas, focused);
        counts == r.counts && CurrentStore() == r.store && currentEventConsumed == r.consumed
      ensures dispatchLog == old(dispatchLog) + Delivered(events, counts, hits, areas, focused)
      ensures bindings == old(bindings) && callbacks == old(callbacks) && drains == old(drains)
      ensures currentEvent == old(currentEvent) || currentEvent.None?
    {
      ghost var w := CurrentWiring();
      ghost var hs := eventManager.handlers;
      ghost var st := CurrentStore();
      ghost var consumed := currentEventConsumed;
      counts := [];
      var i := 0;
      while i < |events|
        invariant 0 <= i <= |events| && CurrentWiring() == w && drains == old(drains)
        invariant RoutedSoFar(w, hs, st, consumed, events, i, counts, hits, areas, focused, old(dispatchLog))
        invariant currentEvent == old(currentEvent) || currentEvent.None?
      {
        ghost var k := RouteNext(w, st, consumed, events, i, counts, hits, areas, focused, old(dispatchLog));
        counts := counts + [k];
        i := i + 1;
      }
      assert events[..i] == events;
    }

    /**
     * The dispatching part of `process_events`, after polling: the consume flag is cleared,
     * then the enter loop, the event loop and the leave loop run in turn.
     */
    method DispatchFrame(events: seq<SystemEvent>, hits: seq<nat>, areas: seq<nat>, focused: Option<nat>)
      returns (current: seq<nat>, ghost routed: seq<nat>, ghost left: nat)
      modifies this
      ensures var d := DispatchOn(old(CurrentWiring()), eventManager.handlers, eventManager.hoveredNodes,
                                  old(CurrentStore()), events, hits, areas, focused);
        current == d.hovered && routed == d.counts && left == d.left &&
        CurrentStore() == d.store && currentEventConsumed == d.consumed
      ensures dispatchLog == old(dispatchLog) + Enters(current, eventManager.hoveredNodes) +
        Delivered(events, routed, hits, areas, focused) + Leaves(eventManager.hoveredNodes[..left], current)
      ensures bindings == old(bindings) && callbacks == old(callbacks) && drains == old(drains)
      ensures currentEvent == old(currentEvent) || currentEvent.None?
    {
      ghost var w := CurrentWiring();
      ghost var hs := eventManager.handlers;
      var previous := eventManager.hoveredNodes;
      currentEventConsumed := false;
      ghost var enter := RunSteps(w, hs, EnterSteps(hits, previous), 0, CurrentStore(), false);
      current := DispatchEnter(hits);
      assert current == hits[..enter.k];
      ghost var route := RouteAll(w, hs, events, enter.store, enter.consumed, hits, areas, focused);
      routed := RouteEvents(events, hits, areas, focused);
      left := DispatchLeave(previous, current);
    }

    /**
     * `process_events` after polling: the hit list, the mouse areas and the focus are read,
     * the three loops run, the hovered list is replaced and the queue is drained once.
     */
    method HandleFrame(events: seq<SystemEvent>) returns (ghost routed: seq<nat>, ghost left: nat)
      modifies this, eventManager
      ensures var d := DispatchOn(old(CurrentWiring()), old(eventManager.handlers), old(eventManager.hoveredNodes),
                                  old(CurrentStore()), events,
                                  HitList(old(CurrentWiring()), old(properties), old(eventManager.mousePosition.0),
                                          old(eventManager.mousePosition.1)),
                                  MouseAreaNodes(old(CurrentWiring()), old(properties)), old(eventManager.focusedNode));
        eventManager.hoveredNodes == d.hovered && routed == d.counts && left == d.left &&
        CurrentStore() == RunCallbacksOn(old(CurrentWiring()), d.store) && currentEventConsumed == d.consumed
      ensures dispatchLog == old(dispatchLog) + Enters(eventManager.hoveredNodes, old(eventManager.hoveredNodes)) +
        Delivered(events, routed, HitList(old(CurrentWiring()), old(properties), old(eventManager.mousePosition.0),
                                          old(eventManager.mousePosition.1)),
                  MouseAreaNodes(old(CurrentWiring()), old(properties)), old(eventManager.focusedNode)) +
        Leaves(old(eventManager.hoveredNodes)[..left], eventManager.hoveredNodes)
      ensures drains == old(drains) + 1
      ensures bindings == old(bindings) && callbacks == old(callbacks)
      ensures eventManager.handlers == old(eventManager.handlers)
      ensures eventManager.focusedNode == old(eventManager.focusedNode)
      ensures eventManager.InputKept()
      ensures currentEvent == old(currentEvent) || currentEvent.None?
    {
      var hits := GetMouseAreaNodesUnderMouse();
      var areas := GetMouseAreaNodes();
      var focused := eventManager.GetFocusedNode();
      ghost var w := CurrentWiring();
      ghost var d := DispatchOn(w, eventManager.handlers, eventManager.hoveredNodes, CurrentStore(),
                                events, hits, areas, focused);
      var current;
      current, routed, left := DispatchFrame(events, hits, areas, focused);
      assert current == d.hovered && CurrentStore() == d.store && CurrentWiring() == w && eventManager.InputKept();
      eventManager.hoveredNodes := current;
      RunCallbacks();
    }

    /**
     * `process_events`: polls the frame's events, dispatches enter events to the hit list,
     * routes every polled event, dispatches leave events, replaces the hovered list and
     * drains the callback queue once, at the end.
     */
    method ProcessEvents(sample: InputSample)
      returns (events: seq<SystemEvent>, ghost routed: seq<nat>, ghost left: nat)
      modifies this, eventManager
      ensures events == FrameEvents(old(eventManager.mousePosition), old(eventManager.windowSize), sample)
      ensures var hits := HitList(old(CurrentWiring()), old(properties), sample.mouseX, sample.mouseY);
        |eventManager.hoveredNodes| <= |hits| && eventManager.hoveredNodes == hits[..|eventManager.hoveredNodes|] &&
        (hits != [] ==> eventManager.hoveredNodes != [])
      ensures AllValid(events, routed, HitList(old(CurrentWiring()), old(properties), sample.mouseX, sample.mouseY),
                       MouseAreaNodes(old(CurrentWiring()), old(properties)), old(eventManager.focusedNode))
      ensures left <= |old(eventManager.hoveredNodes)|
      ensures dispatchLog == old(dispatchLog) + Enters(eventManager.hoveredNodes, old(eventManager.hoveredNodes)) +
        Delivered(events, routed, HitList(old(CurrentWiring()), old(properties), sample.mouseX, sample.mouseY),
                  MouseAreaNodes(old(CurrentWiring()), old(properties)), old(eventManager.focusedNode)) +
        Leaves(old(eventManager.hoveredNodes)[..left], eventManager.hoveredNodes)
      ensures var f := FrameOn(old(CurrentWiring()), old(eventManager.handlers), old(eventManager.hoveredNodes),
                               old(CurrentStore()), events,
                               HitList(old(CurrentWiring()), old(properties), sample.mouseX, sample.mouseY),
                               MouseAreaNodes(old(CurrentWiring()), old(properties)), old(eventManager.focusedNode));
        eventManager.hoveredNodes == f.hovered && routed == f.counts && left == f.left &&
        CurrentStore() == f.store && currentEventConsumed == f.consumed
      ensures drains == old(drains) + 1
      ensures bindings == old(bindings) && callbacks == old(callbacks)
      ensures eventManager.handlers == old(eventManager.handlers)
      ensures eventManager.focusedNode == old(eventManager.focusedNode)
      ensures eventManager.previousMousePosition == old(eventManager.mousePosition)
      ensures eventManager.mousePosition == (sample.mouseX, sample.mouseY)
      ensures eventManager.mouseButtonsPressed ==
        PressedAfter(old(eventManager.mouseButtonsPressed), PolledButtons, sample.pressed, sample.released)
      ensures eventManager.windowSize == (sample.screenWidth, sample.screenHeight)
      ensures currentEvent == old(currentEvent) || currentEvent.None?
    {
      events := eventManager.UpdateFromInput(sample);
      routed, left := HandleFrame(events);
    }
  }
}
