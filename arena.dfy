/**
 * The node arena (rml_core/src/arena.rs): a vector of nodes addressed by index,
 * a map from string ids to indices, and an insertion-ordered set of child indices
 * per node. indexmap's `IndexSet` is modelled as a duplicate-free sequence; its
 * `remove` is indexmap's swap-remove and `Vec::remove` shifts later elements.
 */
module Arena {
  import opened Wrappers
  import Strings

  /** `ItemTypeEnum`. */
  datatype ItemType = Node | Rectangle | Text | MouseArea

  /** Property names to property ids in the engine's store. */
  type PropertyMap = map<string, nat>

  /** `ArenaNode`; held by value in the arena's vector. */
  datatype ArenaNode = ArenaNode(
    id: string,
    nodeType: ItemType,
    properties: PropertyMap,
    parent: Option<nat>,
    children: seq<nat>)
  {
    /** `add_property`: overwrites an existing name; every other name and every other field is kept. */
    function AddProperty(name: string, pid: nat): (r: ArenaNode)
      ensures r.GetProperty(name) == Some(pid)
      ensures forall other :: other != name ==> r.GetProperty(other) == GetProperty(other)
      ensures r.id == id && r.nodeType == nodeType && r.parent == parent && r.children == children
    {
      this.(properties := properties[name := pid])
    }

    /** `get_property`: the stored id, or nothing when the name is absent. */
    function GetProperty(name: string): (r: Option<nat>)
      ensures r.Some? <==> name in properties
      ensures r.Some? ==> r.value == properties[name]
    {
      if name in properties then Some(properties[name]) else None
    }
  }

  /** `ArenaNode::new`: a plain `Node` with no properties, parent or children. */
  function NewNode(id: string): (r: ArenaNode)
    ensures r.id == id && r.nodeType == Node && r.parent.None? && r.children == []
    ensures forall name :: r.GetProperty(name).None?
  {
    ArenaNode(id, Node, map[], None, [])
  }

  // ---- IndexSet<NodeId> as a duplicate-free sequence ----

  /** `IndexSet::insert`: a new element goes last, a present one leaves the order alone. */
  function SetInsert(s: seq<nat>, x: nat): (r: seq<nat>)
    ensures x in r
    ensures forall y :: y in r <==> y in s || y == x
    ensures |s| <= |r| && r[..|s|] == s
    ensures x in s ==> r == s
    ensures x !in s ==> |r| == |s| + 1 && r[|s|] == x
    ensures Strings.NoDup(s) ==> Strings.NoDup(r)
  {
    if x in s then s else s + [x]
  }

  /**
   * `IndexSet::remove` (indexmap's `swap_remove`): the last element takes the
   * removed element's slot; all other positions keep their elements.
   */
  function SwapRemove(s: seq<nat>, x: nat): (r: seq<nat>)
    ensures x !in s ==> r == s
    ensures x in s ==> |r| == |s| - 1
    ensures x in s ==> var i := Strings.IndexOf(s, x).value;
      (forall j :: 0 <= j < |r| && j != i ==> r[j] == s[j]) &&
      (i < |r| ==> r[i] == s[|s| - 1])
    ensures Strings.NoDup(s) ==> Strings.NoDup(r) && x !in r && (forall y :: y in r <==> y in s && y != x)
  {
    match Strings.IndexOf(s, x)
    case None => s
    case Some(i) => s[i := s[|s| - 1]][..|s| - 1]
  }

  /** `Vec::remove`: later elements move one index down. */
  function RemoveAt<T>(s: seq<T>, i: nat): (r: seq<T>)
    requires i < |s|
    ensures |r| == |s| - 1
    ensures forall j :: 0 <= j < i ==> r[j] == s[j]
    ensures forall j :: i <= j < |r| ==> r[j] == s[j + 1]
  {
    s[..i] + s[i + 1..]
  }

  // ---- the per-call effects of the arena's updates, on values ----

  /**
   * The effect of `add_child(p, c)`: the parent's set gains `c` (if `p` exists), and
   * independently the child's parent becomes `p` (if `c` exists).
   */
  function Linked(ns: seq<ArenaNode>, p: nat, c: nat): (r: seq<ArenaNode>)
    ensures |r| == |ns|
    // both exist: c ends up in p's set, prior children keep their order, a new child goes last
    ensures p < |ns| ==>
      c in r[p].children && |ns[p].children| <= |r[p].children| &&
      r[p].children[..|ns[p].children|] == ns[p].children
    ensures p < |ns| && c in ns[p].children ==> r[p].children == ns[p].children
    ensures p < |ns| && c !in ns[p].children ==> r[p].children == ns[p].children + [c]
    ensures c < |ns| ==> r[c].parent == Some(p)
    // nothing else changes: in particular a previous parent still lists c
    ensures forall q :: 0 <= q < |ns| && q != p ==> r[q].children == ns[q].children
    ensures forall q :: 0 <= q < |ns| && q != c ==> r[q].parent == ns[q].parent
    ensures forall q :: 0 <= q < |ns| ==>
      r[q].id == ns[q].id && r[q].nodeType == ns[q].nodeType && r[q].properties == ns[q].properties
  {
    var ns1 := if p < |ns| then ns[p := ns[p].(children := SetInsert(ns[p].children, c))] else ns;
    if c < |ns1| then ns1[c := ns1[c].(parent := Some(p))] else ns1
  }

  /** The first step of `remove_node(n)`: drop `n` from its parent's set by swap-remove. */
  function Detached(ns: seq<ArenaNode>, n: nat): (r: seq<ArenaNode>)
    requires n < |ns|
    ensures |r| == |ns|
    ensures match ns[n].parent
      case Some(p) => p < |ns| ==> r[p].children == SwapRemove(ns[p].children, n)
      case None => r == ns
    ensures forall q :: 0 <= q < |ns| && Some(q) != ns[n].parent ==> r[q] == ns[q]
    ensures forall q :: 0 <= q < |ns| ==>
      r[q].id == ns[q].id && r[q].parent == ns[q].parent && r[q].nodeType == ns[q].nodeType
  {
    match ns[n].parent
    case Some(p) =>
      if p < |ns| then ns[p := ns[p].(children := SwapRemove(ns[p].children, n))] else ns
    case None => ns
  }

  /** What one call of `remove_node` ended in. */
  datatype RemoveOutcome =
    | Removed
      /** `Vec::remove` was reached with an index out of range. */
    | Panicked
      /** The recursion bound of the model ran out before the source would stop. */
    | DepthExceeded

  /** `ArenaTree`. */
  class ArenaTree {
    var nodes: seq<ArenaNode>
    var idToNodeId: map<string, nat>

    /** Every child set is a set: no index occurs twice. */
    ghost predicate Valid()
      reads this
    {
      forall i :: 0 <= i < |nodes| ==> Strings.NoDup(nodes[i].children)
    }

    /** `ArenaTree::new`: empty tree. */
    constructor ()
      ensures Valid()
      ensures nodes == [] && idToNodeId == map[]
    {
      nodes := [];
      idToNodeId := map[];
    }

    /**
     * `add_node`: a known id is refused and nothing changes; otherwise the node goes
     * at the end of the vector, with no parent and no children, and its id maps to it.
     */
    method AddNode(nodeType: ItemType, id: string, properties: PropertyMap) returns (r: Option<nat>)
      requires Valid()
      modifies this
      ensures Valid()
      ensures id in old(idToNodeId) ==>
        r.None? && nodes == old(nodes) && idToNodeId == old(idToNodeId)
      ensures id !in old(idToNodeId) ==>
        r == Some(|old(nodes)|) &&
        nodes == old(nodes) + [ArenaNode(id, nodeType, properties, None, [])] &&
        idToNodeId == old(idToNodeId)[id := |old(nodes)|]
    {
      if id in idToNodeId {
        return None;
      }
      var nodeId := |nodes|;
      nodes := nodes + [ArenaNode(id, nodeType, properties, None, [])];
      idToNodeId := idToNodeId[id := nodeId];
      r := Some(nodeId);
    }

    /** `add_child`: see `Linked` for what the two independent updates promise. */
    method AddChild(parentId: nat, childId: nat)
      requires Valid()
      modifies this
      ensures Valid()
      ensures nodes == Linked(old(nodes), parentId, childId)
      ensures idToNodeId == old(idToNodeId)
    {
      if parentId < |nodes| {
        var parent := nodes[parentId];
        nodes := nodes[parentId := parent.(children := SetInsert(parent.children, childId))];
      }
      if childId < |nodes| {
        var child := nodes[childId];
        nodes := nodes[childId := child.(parent := Some(parentId))];
      }
    }

    /** `get_node_by_id`: the node the id maps to, if the mapped index still exists. */
    function GetNodeById(id: string): (r: Option<ArenaNode>)
      reads this
      ensures r.Some? <==> id in idToNodeId && idToNodeId[id] < |nodes|
      ensures r.Some? ==> r.value == nodes[idToNodeId[id]]
    {
      if id in idToNodeId && idToNodeId[id] < |nodes| then Some(nodes[idToNodeId[id]]) else None
    }

    /** `get_node`: bounds-checked indexing. */
    function GetNode(n: nat): (r: Option<ArenaNode>)
      reads this
      ensures r.Some? <==> n < |nodes|
      ensures r.Some? ==> r.value == nodes[n]
    {
      if n < |nodes| then Some(nodes[n]) else None
    }

    /** `get_childrens_ids`: the child set in insertion order, empty for an unknown node. */
    function GetChildrensIds(n: nat): (r: seq<nat>)
      reads this
      ensures n < |nodes| ==> r == nodes[n].children
      ensures n >= |nodes| ==> r == []
      ensures Valid() ==> Strings.NoDup(r)
    {
      if n < |nodes| then nodes[n].children else []
    }

    /** `get_children`: the child indices that still resolve, as nodes. */
    function GetChildren(n: nat): (r: seq<ArenaNode>)
      reads this
      ensures n >= |nodes| ==> r == []
      ensures n < |nodes| ==> var live := InRange(|nodes|, nodes[n].children);
        |r| == |live| && forall i :: 0 <= i < |r| ==> r[i] == nodes[live[i]]
    {
      if n < |nodes| then Resolve(nodes, nodes[n].children) else []
    }

    /** `get_childrens_ids_str`: the string ids of the children that still resolve. */
    function GetChildrensIdsStr(n: nat): (r: seq<string>)
      reads this
      ensures n >= |nodes| ==> r == []
      ensures n < |nodes| ==> var live := InRange(|nodes|, nodes[n].children);
        |r| == |live| && forall i :: 0 <= i < |r| ==> r[i] == nodes[live[i]].id
      ensures |r| == |GetChildren(n)|
      ensures forall i :: 0 <= i < |r| ==> r[i] == GetChildren(n)[i].id
    {
      var kids := GetChildren(n);
      seq(|kids|, i requires 0 <= i < |kids| => kids[i].id)
    }

    /** When every child index of `n` is in range, `get_children` and `get_childrens_ids` agree position by position. */
    lemma ChildrenAgree(n: nat)
      requires n < |nodes|
      requires forall j :: 0 <= j < |nodes[n].children| ==> nodes[n].children[j] < |nodes|
      ensures |GetChildren(n)| == |GetChildrensIds(n)|
      ensures forall i :: 0 <= i < |GetChildren(n)| ==> GetChildren(n)[i] == nodes[GetChildrensIds(n)[i]]
    {
      assert InRange(|nodes|, nodes[n].children) == nodes[n].children;
    }

    /** `get_children_by_id`: nothing for an unknown id, otherwise `get_children` of its index. */
    function GetChildrenById(id: string): (r: Option<seq<ArenaNode>>)
      reads this
      ensures r.Some? <==> id in idToNodeId
      ensures r.Some? ==> r.value == GetChildren(idToNodeId[id])
    {
      if id in idToNodeId then Some(GetChildren(idToNodeId[id])) else None
    }

    /**
     * `remove_node`. One call takes the node's id, parent and child set (or an empty
     * id and nothing when `n` is out of range), detaches `n` from its parent by
     * swap-remove, removes each child recursively, drops the id from the map and
     * finally removes index `n` from the vector, panicking if it is out of range by then.
     * The map is never renumbered, so ids mapped past `n` go stale.
     */
    method RemoveNode(n: nat, fuel: nat) returns (outcome: RemoveOutcome)
      requires Valid()
      modifies this
      decreases fuel
      ensures Valid()
      ensures |nodes| <= |old(nodes)|
      ensures forall k :: k in idToNodeId ==> k in old(idToNodeId) && idToNodeId[k] == old(idToNodeId)[k]
      ensures fuel == 0 ==> outcome == DepthExceeded && nodes == old(nodes) && idToNodeId == old(idToNodeId)
      ensures fuel > 0 && n >= |old(nodes)| ==>
        outcome == Panicked && nodes == old(nodes) && idToNodeId == old(idToNodeId) - {""}
      ensures fuel > 0 && n < |old(nodes)| && old(nodes)[n].children == [] ==>
        outcome == Removed &&
        nodes == RemoveAt(Detached(old(nodes), n), n) &&
        idToNodeId == old(idToNodeId) - {old(nodes)[n].id}
      ensures outcome == Removed ==>
        n < |old(nodes)| && |nodes| < |old(nodes)| && old(nodes)[n].id !in idToNodeId
    {
      if fuel == 0 {
        return DepthExceeded;
      }
      var id: string := "";
      var children: seq<nat> := [];
      if n < |nodes| {
        id := nodes[n].id;
        children := nodes[n].children;
        nodes := Detached(nodes, n);
      }
      var i := 0;
      while i < |children|
        invariant 0 <= i <= |children|
        invariant Valid()
        invariant |nodes| <= |old(nodes)|
        invariant forall k :: k in idToNodeId ==> k in old(idToNodeId) && idToNodeId[k] == old(idToNodeId)[k]
        invariant n < |old(nodes)| ==> id == old(nodes)[n].id
        invariant n >= |old(nodes)| ==> id == "" && nodes == old(nodes) && children == []
        invariant n < |old(nodes)| ==> children == old(nodes)[n].children
        invariant i == 0 ==> idToNodeId == old(idToNodeId)
        invariant i == 0 && n < |old(nodes)| ==> nodes == Detached(old(nodes), n)
      {
        var r := RemoveNode(children[i], fuel - 1);
        if r != Removed {
          return r;
        }
        i := i + 1;
      }
      idToNodeId := idToNodeId - {id};
      if n >= |nodes| {
        return Panicked;
      }
      nodes := RemoveAt(nodes, n);
      outcome := Removed;
    }
  }

  /** The indices of `kids` below `n`, in their order. */
  function InRange(n: nat, kids: seq<nat>): (r: seq<nat>)
    ensures |r| <= |kids|
    ensures forall i :: 0 <= i < |r| ==> r[i] < n
    ensures forall x :: x in r <==> x in kids && x < n
    ensures (forall j :: 0 <= j < |kids| ==> kids[j] < n) ==> r == kids
  {
    if kids == [] then []
    else
      var rest := InRange(n, kids[..|kids| - 1]);
      var k := kids[|kids| - 1];
      assert kids == kids[..|kids| - 1] + [k];
      if k < n then rest + [k] else rest
  }

  /** Filtering keeps the order of the kept indices: it distributes over concatenation. */
  lemma {:induction false} InRangeAppend(n: nat, a: seq<nat>, b: seq<nat>)
    ensures InRange(n, a + b) == InRange(n, a) + InRange(n, b)
    decreases |b|
  {
    if b != [] {
      assert (a + b)[..|a + b| - 1] == a + b[..|b| - 1];
      assert (a + b)[|a + b| - 1] == b[|b| - 1];
      InRangeAppend(n, a, b[..|b| - 1]);
    } else {
      assert a + b == a;
    }
  }

  /** Every index is kept or dropped on its own: one index gives itself or nothing. */
  lemma InRangeSingle(n: nat, k: nat)
    ensures InRange(n, [k]) == if k < n then [k] else []
  {
    assert [k][..0] == [];
  }

  /** An out-of-range index in the middle is dropped and the others keep their order. */
  lemma InRangeKeepsOrder()
    ensures InRange(2, [1, 99, 0]) == [1, 0]
  {
    InRangeAppend(2, [1], [99, 0]);
    InRangeAppend(2, [99], [0]);
    InRangeSingle(2, 1);
    InRangeSingle(2, 99);
    InRangeSingle(2, 0);
    assert [1] + [99, 0] == [1, 99, 0] && [99] + [0] == [99, 0];
  }

  /** The nodes that the indices `kids` resolve to, in order, skipping indices past the end. */
  function Resolve(ns: seq<ArenaNode>, kids: seq<nat>): (r: seq<ArenaNode>)
    ensures |r| == |InRange(|ns|, kids)| && forall i :: 0 <= i < |r| ==> r[i] == ns[InRange(|ns|, kids)[i]]
    ensures |r| <= |kids|
    ensures forall i :: 0 <= i < |r| ==> exists j :: 0 <= j < |kids| && kids[j] < |ns| && r[i] == ns[kids[j]]
    ensures (forall j :: 0 <= j < |kids| ==> kids[j] < |ns|) ==>
      |r| == |kids| && forall i :: 0 <= i < |r| ==> r[i] == ns[kids[i]]
    ensures (forall j :: 0 <= j < |kids| ==> kids[j] >= |ns|) ==> r == []
  {
    if kids == [] then []
    else
      var rest := Resolve(ns, kids[..|kids| - 1]);
      var k := kids[|kids| - 1];
      if k < |ns| then rest + [ns[k]] else rest
  }

  /** An index past the end is skipped and the others keep their order: `[0, 99, 1]` gives the first two nodes. */
  lemma ResolveSkipsGaps(a: ArenaNode, b: ArenaNode)
    ensures Resolve([a, b], [0, 99, 1]) == [a, b]
  {
    assert [0, 99, 1][..2] == [0, 99] && [0, 99][..1] == [0] && [0][..0] == [];
  }
}
