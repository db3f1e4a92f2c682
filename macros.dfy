// The component layer of the `rml!` macro (rml_macros/src/macros.rs): registering the
// components an `import` brings in, choosing between a custom component and a built-in
// node type, merging a component instance into the component's root node and renaming
// the component's own id, and the hoisting of child functions while a node is parsed.
// Reading directories and files and the syn parser are parameters.

module Macros {
  import opened Wrappers
  import opened Strings
  import opened Structs
  import Arena
  import Common

  /** A component file: its name (the file stem) and its path. */
  datatype ComponentDefinition = ComponentDefinition(name: string, path: string)

  /** `import "path" as alias`. */
  datatype ImportStatement = ImportStatement(path: string, alias: Option<string>)

  /** A directory entry: file stem and extension (None when absent or not UTF-8) and its path. */
  datatype DirEntry = DirEntry(stem: Option<string>, extension: Option<string>, path: string)

  function DefinitionOf(e: DirEntry): ComponentDefinition {
    ComponentDefinition(e.stem.GetOr("UnknownComponent"), e.path)
  }

  /** The `.rml` entries of a directory listing, in listing order. */
  function RmlFiles(entries: seq<DirEntry>): (r: seq<ComponentDefinition>)
    ensures forall c :: c in r <==> exists e :: e in entries && e.extension == Some("rml") && c == DefinitionOf(e)
  {
    if entries == [] then []
    else
      var prev := RmlFiles(entries[..|entries| - 1]);
      var e := entries[|entries| - 1];
      assert forall x :: x in entries <==> x in entries[..|entries| - 1] || x == e;
      if e.extension == Some("rml") then prev + [DefinitionOf(e)] else prev
  }

  /** The listing order is kept: the `.rml` files of two listings one after the other. */
  lemma {:induction false} RmlFilesAppend(a: seq<DirEntry>, b: seq<DirEntry>)
    ensures RmlFiles(a + b) == RmlFiles(a) + RmlFiles(b)
    decreases |b|
  {
    if b != [] {
      assert (a + b)[..|a + b| - 1] == a + b[..|b| - 1];
      assert (a + b)[|a + b| - 1] == b[|b| - 1];
      RmlFilesAppend(a, b[..|b| - 1]);
    } else {
      assert a + b == a;
    }
  }

  /** `load_components_from_path`: an error when the directory is missing. */
  function LoadComponents(dirExists: bool, entries: seq<DirEntry>): (r: Option<seq<ComponentDefinition>>)
    ensures r.None? <==> !dirExists
    ensures r.Some? ==> r.value == RmlFiles(entries)
  {
    if dirExists then Some(RmlFiles(entries)) else None
  }

  /**
   * `Path::parent` of the importing file: everything before the last '/', "/" when that is
   * the first character, and "" when there is no '/'.
   */
  function ParentDir(p: string): (r: string)
    ensures '/' !in p ==> r == ""
    ensures '/' in p ==>
      exists i :: 0 <= i < |p| && p[i] == '/' && '/' !in p[i + 1..] && r == (if i == 0 then "/" else p[..i])
  {
    match RFindChar(p, '/')
    case None => ""
    case Some(i) => if i == 0 then "/" else p[..i]
  }

  /** `Path::join` of a relative path onto a directory: the directory, one separator, then the path. */
  function JoinPath(dir: string, p: string): (r: string)
    ensures |dir| + |p| <= |r| <= |dir| + |p| + 1
    ensures r[..|dir|] == dir && r[|r| - |p|..] == p
    ensures dir != [] ==> r[|r| - |p| - 1] == '/'
    ensures dir == [] ==> r == p
  {
    if dir == [] then p
    else if dir[|dir| - 1] == '/' then dir + p
    else dir + "/" + p
  }

  /** The directory an import names: absolute paths as given, others beside the importing file. */
  function ResolvePath(path: string, parentPath: string): (r: string)
    ensures StartsWith(path, "/") ==> r == path
    ensures EndsWith(r, path)
  {
    var r := if StartsWith(path, "/") then path else JoinPath(ParentDir(parentPath), path);
    assert r[|r| - |path|..] == path;
    r
  }

  /** The name a component is registered under. */
  function ComponentKey(alias: Option<string>, name: string): (r: string)
    ensures alias.None? ==> r == name
    ensures alias.Some? ==> r == alias.value + "::" + name
  {
    match alias
    case None => name
    case Some(a) => a + "::" + name
  }

  /** Inserting every loaded component in order: a later same key overwrites. */
  function RegisterAll(components: map<string, ComponentDefinition>, alias: Option<string>,
                       loaded: seq<ComponentDefinition>): map<string, ComponentDefinition> {
    if loaded == [] then components
    else
      var last := loaded[|loaded| - 1];
      RegisterAll(components, alias, loaded[..|loaded| - 1])[ComponentKey(alias, last.name) := last]
  }

  /** The last loaded component whose key is `key`, if any. */
  function LastWithKey(alias: Option<string>, loaded: seq<ComponentDefinition>, key: string): Option<ComponentDefinition> {
    if loaded == [] then None
    else if ComponentKey(alias, loaded[|loaded| - 1].name) == key then Some(loaded[|loaded| - 1])
    else LastWithKey(alias, loaded[..|loaded| - 1], key)
  }

  /**
   * After registering, a key maps to the last loaded component with that key, and
   * keys no loaded component has keep their earlier binding.
   */
  lemma {:induction false} RegisterAllLookup(components: map<string, ComponentDefinition>, alias: Option<string>,
                                             loaded: seq<ComponentDefinition>, key: string)
    ensures LastWithKey(alias, loaded, key).Some? ==>
              key in RegisterAll(components, alias, loaded) &&
              RegisterAll(components, alias, loaded)[key] == LastWithKey(alias, loaded, key).value
    ensures LastWithKey(alias, loaded, key).None? ==>
              (key in RegisterAll(components, alias, loaded) <==> key in components) &&
              (key in components ==> RegisterAll(components, alias, loaded)[key] == components[key])
    decreases |loaded|
  {
    if loaded != [] {
      RegisterAllLookup(components, alias, loaded[..|loaded| - 1], key);
    }
  }

  /** A component registered under some key is found again by that key iff some loaded file has it. */
  lemma {:induction false} LastWithKeyExists(alias: Option<string>, loaded: seq<ComponentDefinition>, key: string)
    ensures LastWithKey(alias, loaded, key).Some? <==>
            exists k :: 0 <= k < |loaded| && ComponentKey(alias, loaded[k].name) == key
    decreases |loaded|
  {
    if loaded != [] {
      var init := loaded[..|loaded| - 1];
      LastWithKeyExists(alias, init, key);
      assert forall k :: 0 <= k < |init| ==> init[k] == loaded[k];
    }
  }

  /** One `import` statement; a directory that fails to load registers nothing. */
  function RegisterImport(components: map<string, ComponentDefinition>, imp: ImportStatement,
                          loaded: Option<seq<ComponentDefinition>>): (r: map<string, ComponentDefinition>)
    ensures loaded.None? ==> r == components
  {
    match loaded
    case None => components
    case Some(l) => RegisterAll(components, imp.alias, l)
  }

  /** The imports at the head of a file, in order; `load` stands for the directory reader. */
  function RegisterImports(imports: seq<ImportStatement>, parentPath: string,
                           load: string -> Option<seq<ComponentDefinition>>): map<string, ComponentDefinition> {
    if imports == [] then map[]
    else
      var imp := imports[|imports| - 1];
      RegisterImport(RegisterImports(imports[..|imports| - 1], parentPath, load), imp, load(ResolvePath(imp.path, parentPath)))
  }

  /** Importing the first `i + 1` statements is importing the first `i`, then statement `i`. */
  lemma RegisterImportsStep(imports: seq<ImportStatement>, i: nat, parentPath: string,
                            load: string -> Option<seq<ComponentDefinition>>)
    requires i < |imports|
    ensures RegisterImports(imports[..i + 1], parentPath, load) ==
            RegisterImport(RegisterImports(imports[..i], parentPath, load), imports[i],
                           load(ResolvePath(imports[i].path, parentPath)))
  {
    assert imports[..i + 1][..i] == imports[..i];
  }

  /** The insertion loop over one import's loaded components. */
  method RegisterLoaded(components: map<string, ComponentDefinition>, alias: Option<string>,
                        loaded: seq<ComponentDefinition>)
    returns (r: map<string, ComponentDefinition>)
    ensures r == RegisterAll(components, alias, loaded)
  {
    r := components;
    var j := 0;
    while j < |loaded|
      invariant 0 <= j <= |loaded|
      invariant r == RegisterAll(components, alias, loaded[..j])
    {
      assert loaded[..j + 1][..j] == loaded[..j];
      r := r[ComponentKey(alias, loaded[j].name) := loaded[j]];
      j := j + 1;
    }
    assert loaded[..j] == loaded;
  }

  /** The import loop of `RmlParser::parse_with_path`. */
  method ParseImports(imports: seq<ImportStatement>, parentPath: string,
                      load: string -> Option<seq<ComponentDefinition>>)
    returns (components: map<string, ComponentDefinition>)
    ensures components == RegisterImports(imports, parentPath, load)
  {
    components := map[];
    var i := 0;
    while i < |imports|
      invariant 0 <= i <= |imports|
      invariant components == RegisterImports(imports[..i], parentPath, load)
    {
      var loaded := load(ResolvePath(imports[i].path, parentPath));
      RegisterImportsStep(imports, i, parentPath, load);
      if loaded.Some? {
        components := RegisterLoaded(components, imports[i].alias, loaded.value);
      }
      i := i + 1;
    }
    assert imports[..i] == imports;
  }

  // ---- custom or built-in ----

  /** What a node name stands for. */
  datatype NodeKind = Custom(definition: ComponentDefinition) | BuiltIn(itemType: Arena.ItemType)

  /** `generate_with_components`: a registered component wins over a built-in type; else a panic. */
  function ResolveNodeKind(components: map<string, ComponentDefinition>, name: string): (r: Result<NodeKind, string>)
    ensures r.Ok? && r.value.Custom? <==> name in components
    ensures r.Ok? && r.value.Custom? ==> r.value.definition == components[name]
    ensures r.Ok? && r.value.BuiltIn? <==> name !in components && Common.NodeTypeOf(name).Some?
    ensures r.Ok? && r.value.BuiltIn? ==> Some(r.value.itemType) == Common.NodeTypeOf(name)
    ensures r.Err? <==> name !in components && Common.NodeTypeOf(name).None?
  {
    if name in components then Ok(Custom(components[name]))
    else
      match Common.NodeTypeOf(name)
      case None => Err("Unknown node type: " + name)
      case Some(t) => Ok(BuiltIn(t))
  }

  /** A component registered under a built-in type's name shadows that type. */
  lemma ComponentShadowsBuiltIn(alias: Option<string>, loaded: seq<ComponentDefinition>, k: nat)
    requires k < |loaded| && Common.NodeTypeOf(ComponentKey(alias, loaded[k].name)).Some?
    ensures var components := RegisterAll(map[], alias, loaded);
      var key := ComponentKey(alias, loaded[k].name);
      ResolveNodeKind(components, key).Ok? && ResolveNodeKind(components, key).value.Custom?
  {
    var key := ComponentKey(alias, loaded[k].name);
    LastWithKeyExists(alias, loaded, key);
    RegisterAllLookup(map[], alias, loaded, key);
  }

  // ---- generate_custom_component ----

  /** The four pieces of generated code and the node's id (`GenResult`). */
  datatype GenResult = GenResult(id: string, nodeCode: string, functionsCode: string, initializerCode: string)

  /** The id the component file gives its root, "" when it gives none. */
  function OriginalId(props: Common.Properties): (r: string)
    ensures Common.ExtractNodeId(props).Some? ==> r == Common.ExtractNodeId(props).value
    ensures Common.ExtractNodeId(props).None? ==> r == ""
  {
    Common.ExtractNodeId(props).GetOr("")
  }

  /** `retain(|(k, _)| k.to_string() != key)`. */
  function WithoutKey(props: Common.Properties, key: string): (r: Common.Properties)
    ensures forall e :: e in r <==> e in props && e.0.KeyString() != key
    ensures |r| <= |props|
  {
    if props == [] then []
    else
      var prev := WithoutKey(props[..|props| - 1], key);
      var e := props[|props| - 1];
      assert forall x :: x in props <==> x in props[..|props| - 1] || x == e;
      if e.0.KeyString() != key then prev + [e] else prev
  }

  /** The component root with the instance merged in: the root's ids dropped, the instance's entries applied, its children appended. */
  function MergeInstance(component: RmlNode, instance: RmlNode): RmlNode {
    component.(properties := Common.ApplyAll(WithoutKey(component.properties, "id"), instance.properties),
               children := component.children + instance.children)
  }

  /** The retain step, as the source's in-place filter. */
  method RetainWithoutKey(props: Common.Properties, key: string) returns (r: Common.Properties)
    ensures r == WithoutKey(props, key)
  {
    r := [];
    var i := 0;
    while i < |props|
      invariant 0 <= i <= |props|
      invariant r == WithoutKey(props[..i], key)
    {
      assert props[..i + 1][..i] == props[..i];
      if props[i].0.KeyString() != key {
        r := r + [props[i]];
      }
      i := i + 1;
    }
    assert props[..i] == props;
  }

  /** Lines 595-615 of `generate_custom_component`: the original id and the merged root. */
  method MergeComponent(component: RmlNode, instance: RmlNode) returns (merged: RmlNode, originalId: string)
    ensures originalId == OriginalId(component.properties)
    ensures merged == MergeInstance(component, instance)
  {
    originalId := "";
    var found := Common.FindKey(component.properties, "id");
    if found.Some? {
      originalId := ValueToString(component.properties[found.value].1);
    }
    var kept := RetainWithoutKey(component.properties, "id");
    var props := Common.ApplyInstanceProperties(kept, instance.properties);
    merged := component.(properties := props, children := component.children + instance.children);
  }

  /** Filtering out one key does not change how another key looks up. */
  lemma {:induction false} WithoutKeyLookup(props: Common.Properties, key: string, other: string)
    requires other != key
    ensures Common.Lookup(WithoutKey(props, key), other) == Common.Lookup(props, other)
    decreases |props|
  {
    if props != [] {
      var init := props[..|props| - 1];
      var e := props[|props| - 1];
      assert props == init + [e];
      WithoutKeyLookup(init, key, other);
      Common.LookupAppend(init, e, other);
      if e.0.KeyString() != key {
        Common.LookupAppend(WithoutKey(init, key), e, other);
      }
    }
  }

  /** After the retain no entry is keyed `key`. */
  lemma WithoutKeyAbsent(props: Common.Properties, key: string)
    ensures Common.FindKey(WithoutKey(props, key), key).None?
  {
    var r := WithoutKey(props, key);
    assert forall j :: 0 <= j < |r| ==> r[j] in r;
  }

  /**
   * In the merged root the id is the one the instance gives (the last one it gives),
   * and every other key reads as the instance sets it or else as in the component.
   */
  lemma MergedProperties(component: RmlNode, instance: RmlNode, key: string)
    ensures var merged := MergeInstance(component, instance).properties;
      Common.Lookup(merged, "id") == Common.InstanceValue(instance.properties, "id") &&
      (key != "id" ==>
         Common.Lookup(merged, key) ==
           (if Common.InstanceValue(instance.properties, key).Some? then Common.InstanceValue(instance.properties, key)
            else Common.Lookup(component.properties, key)))
  {
    var kept := WithoutKey(component.properties, "id");
    WithoutKeyAbsent(component.properties, "id");
    if key != "id" {
      WithoutKeyLookup(component.properties, "id", key);
    }
    Common.InstanceOverrides(kept, instance.properties, "id");
    Common.InstanceOverrides(kept, instance.properties, key);
  }

  /** The instance's children come after the component's own. */
  lemma MergedChildren(component: RmlNode, instance: RmlNode)
    ensures var merged := MergeInstance(component, instance);
      |merged.children| == |component.children| + |instance.children| &&
      merged.children[..|component.children|] == component.children &&
      merged.children[|component.children|..] == instance.children
  {
  }

  /** Lines 629-647: the component's own id is replaced by the new id, only when it is non-empty. */
  function RenameIds(gen: GenResult, originalId: string): (r: GenResult)
    ensures r.id == gen.id
    ensures originalId == "" ==> r == gen
  {
    if originalId == "" then gen
    else gen.(nodeCode := ReplaceAll(gen.nodeCode, originalId, gen.id),
              functionsCode := ReplaceAll(gen.functionsCode, originalId, gen.id),
              initializerCode := ReplaceAll(gen.initializerCode, originalId, gen.id))
  }

  /** Code that does not mention the original id is left as generated. */
  lemma RenameWithoutMentions(gen: GenResult, originalId: string)
    requires forall j :: 0 <= j <= |gen.nodeCode| ==> !OccursAt(gen.nodeCode, originalId, j)
    requires forall j :: 0 <= j <= |gen.functionsCode| ==> !OccursAt(gen.functionsCode, originalId, j)
    requires forall j :: 0 <= j <= |gen.initializerCode| ==> !OccursAt(gen.initializerCode, originalId, j)
    ensures RenameIds(gen, originalId) == gen
  {
    if originalId != "" {
      ReplaceAllAbsent(gen.nodeCode, originalId, gen.id);
      ReplaceAllAbsent(gen.functionsCode, originalId, gen.id);
      ReplaceAllAbsent(gen.initializerCode, originalId, gen.id);
    }
  }

  /** A parsed component file: its root node and the components it imports itself. */
  datatype ComponentFile = ComponentFile(root: RmlNode, components: map<string, ComponentDefinition>)

  /**
   * `generate_custom_component`. `file` is the read and parsed component file (Err when
   * reading or parsing panics); `generate` is `generate_with_components` on the merged root.
   */
  function GenerateCustomComponent(instance: RmlNode, file: Result<ComponentFile, string>,
                                   generate: (RmlNode, map<string, ComponentDefinition>) -> Result<GenResult, string>)
    : (r: Result<GenResult, string>)
    ensures r.Ok? <==> file.Ok? && generate(MergeInstance(file.value.root, instance), file.value.components).Ok?
    ensures r.Ok? ==> r.value.id == generate(MergeInstance(file.value.root, instance), file.value.components).value.id
  {
    match file
    case Err(e) => Err(e)
    case Ok(f) =>
      match generate(MergeInstance(f.root, instance), f.components)
      case Err(e) => Err(e)
      case Ok(g) => Ok(RenameIds(g, OriginalId(f.root.properties)))
  }

  /** A component used without an id keeps the code of its merged root when the file gives none either. */
  lemma UnnamedComponentUnchanged(instance: RmlNode, f: ComponentFile,
                                  generate: (RmlNode, map<string, ComponentDefinition>) -> Result<GenResult, string>)
    requires Common.ExtractNodeId(f.root.properties).None?
    requires generate(MergeInstance(f.root, instance), f.components).Ok?
    ensures GenerateCustomComponent(instance, Ok(f), generate) == generate(MergeInstance(f.root, instance), f.components)
  {
  }

  // ---- parsing a node body: function hoisting ----

  /** One item of a node body, as the parser meets it. */
  datatype BodyItem = FnDecl(f: FnItem) | SignalDecl(name: string) | PropDecl(key: PropertyKey, value: Value) | ChildDecl(child: RmlNode)

  /** One body item added to the node parsed so far; a child's functions are copied up. */
  function AddItem(n: RmlNode, item: BodyItem): RmlNode {
    match item
    case FnDecl(f) => n.(functions := n.functions + [f])
    case SignalDecl(s) => n.(properties := n.properties + [(Signal(s), VIdent("signal"))])
    case PropDecl(k, v) => n.(properties := n.properties + [(k, v)])
    case ChildDecl(c) => n.(functions := n.functions + c.functions, children := n.children + [c])
  }

  /** `RmlNode::parse` once the body has been split into items. */
  function ParseBody(ident: string, items: seq<BodyItem>): RmlNode {
    if items == [] then RmlNode(ident, [], [], [])
    else AddItem(ParseBody(ident, items[..|items| - 1]), items[|items| - 1])
  }

  /** The item loop of `RmlNode::parse`, pushing onto the three lists. */
  method ParseNode(ident: string, items: seq<BodyItem>) returns (n: RmlNode)
    ensures n == ParseBody(ident, items)
  {
    var properties: Common.Properties := [];
    var children: seq<RmlNode> := [];
    var functions: seq<FnItem> := [];
    var i := 0;
    while i < |items|
      invariant 0 <= i <= |items|
      invariant RmlNode(ident, properties, children, functions) == ParseBody(ident, items[..i])
    {
      assert items[..i + 1][..i] == items[..i];
      match items[i] {
        case FnDecl(f) =>
          functions := functions + [f];
        case SignalDecl(s) =>
          properties := properties + [(Signal(s), VIdent("signal"))];
        case PropDecl(k, v) =>
          properties := properties + [(k, v)];
        case ChildDecl(c) =>
          functions := functions + c.functions;
          children := children + [c];
      }
      i := i + 1;
    }
    assert items[..i] == items;
    n := RmlNode(ident, properties, children, functions);
  }

  /** The functions one item contributes. */
  function ItemFunctions(item: BodyItem): seq<FnItem> {
    match item
    case FnDecl(f) => [f]
    case ChildDecl(c) => c.functions
    case _ => []
  }

  /** Every child's functions are among its parent's, all the way down. */
  ghost predicate Hoisted(n: RmlNode)
    decreases n
  {
    forall i :: 0 <= i < |n.children| ==>
      (forall f :: f in n.children[i].functions ==> f in n.functions) && Hoisted(n.children[i])
  }

  /** A parsed node's functions are exactly its own and those of its children. */
  lemma {:induction false} ParsedFunctions(ident: string, items: seq<BodyItem>, f: FnItem)
    ensures f in ParseBody(ident, items).functions <==>
            exists k :: 0 <= k < |items| && f in ItemFunctions(items[k])
    decreases |items|
  {
    if items != [] {
      var init := items[..|items| - 1];
      ParsedFunctions(ident, init, f);
      assert forall k :: 0 <= k < |init| ==> init[k] == items[k];
      if f in ParseBody(ident, items).functions && f !in ParseBody(ident, init).functions {
        assert f in ItemFunctions(items[|items| - 1]);
      }
    }
  }

  /** Parsing hoists: when the children were parsed the same way, the node is hoisted too. */
  lemma {:induction false} ParseHoists(ident: string, items: seq<BodyItem>)
    requires forall k :: 0 <= k < |items| && items[k].ChildDecl? ==> Hoisted(items[k].child)
    ensures Hoisted(ParseBody(ident, items))
    decreases |items|
  {
    if items != [] {
      var init := items[..|items| - 1];
      assert forall k :: 0 <= k < |init| ==> init[k] == items[k];
      ParseHoists(ident, init);
      var prev := ParseBody(ident, init);
      var n := ParseBody(ident, items);
      assert forall f :: f in prev.functions ==> f in n.functions;
      assert n.children[..|prev.children|] == prev.children;
    }
  }

  /** The node at a child-index path. */
  function At(n: RmlNode, path: seq<nat>): Option<RmlNode>
    decreases |path|
  {
    if path == [] then Some(n)
    else if path[0] < |n.children| then At(n.children[path[0]], path[1..])
    else None
  }

  /** In a hoisted tree, the root holds the functions of every descendant. */
  lemma {:induction false} DescendantFunctionsHoisted(n: RmlNode, path: seq<nat>, f: FnItem)
    requires Hoisted(n) && At(n, path).Some? && f in At(n, path).value.functions
    ensures f in n.functions
    decreases |path|
  {
    if path != [] {
      DescendantFunctionsHoisted(n.children[path[0]], path[1..], f);
    }
  }
}
