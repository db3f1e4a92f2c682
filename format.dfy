// The text rewriting of the `rml!` macro (rml_macros/src/format.rs): normalising a
// binding block so each getter call starts a line, extracting the properties a
// binding depends on, and threading the `engine` argument into user function calls,
// both on text and on a small statement/call tree.

module Format {
  import opened Wrappers
  import opened Strings

  // ---- format_code_for_binding_extraction ----

  /** The getters a binding block may read through, in the order the source lists them. */
  const GetterNames: seq<string> := [
    "get_value!", "get_number!", "get_string!", "get_bool!", "get_color!",
    "get_computed_x!", "get_computed_y!", "get_computed_width!", "get_computed_height!",
    "get_number_property_of_node", "get_string_property_of_node", "get_bool_property_of_node",
    "get_color_property_of_node", "get_property_of_node"]

  /** The macro-form getters (`get_number!(engine, node, prop)`). */
  const MacroGetters: seq<string> := GetterNames[..9]

  /** The method-form getters (`engine.get_number_property_of_node(node, "prop", d)`). */
  const MethodGetters: seq<string> := GetterNames[9..]

  /** Names usable as `replace` patterns. */
  ghost predicate NonEmptyNames(names: seq<string>) {
    forall i :: 0 <= i < |names| ==> |names[i]| > 0
  }

  /** Names holding no carriage return. */
  ghost predicate PlainNames(names: seq<string>) {
    forall i :: 0 <= i < |names| ==> '\r' !in names[i]
  }

  lemma GetterNamesNonEmpty()
    ensures NonEmptyNames(GetterNames)
  {
  }

  lemma GetterNamesPlain()
    ensures PlainNames(GetterNames)
  {
    GetterNamesSeparated();
  }

  /** Inserting a line break before every occurrence of each name, one name after another. */
  function InsertBreaks(code: string, names: seq<string>): string
    requires NonEmptyNames(names)
  {
    if names == [] then code
    else
      var name := names[|names| - 1];
      ReplaceAll(InsertBreaks(code, names[..|names| - 1]), name, "\n" + name)
  }

  /**
   * The text `format_code_for_binding_extraction` produces: it holds no carriage return,
   * and it differs from the input with its line breaks and carriage returns removed only
   * by the line breaks it inserted.
   */
  function ExtractionForm(code: string): (r: string)
    ensures '\r' !in r
    ensures RemoveChar(r, '\n') == RemoveChar(RemoveChar(code, '\n'), '\r')
  {
    GetterNamesNonEmpty();
    GetterNamesPlain();
    var base := RemoveChar(RemoveChar(code, '\n'), '\r');
    InsertBreaksAvoids(base, GetterNames, '\r');
    InsertBreaksOnlyBreaks(base, GetterNames);
    RemoveCharAbsent(base, '\n');
    InsertBreaks(base, GetterNames)
  }

  /** `format_code_for_binding_extraction`: line breaks dropped, then one put before each getter. */
  method FormatCodeForBindingExtraction(code: string) returns (r: string)
    ensures r == ExtractionForm(code)
  {
    GetterNamesNonEmpty();
    r := RemoveChar(RemoveChar(code, '\n'), '\r');
    ghost var base := r;
    var i := 0;
    while i < |GetterNames|
      invariant 0 <= i <= |GetterNames|
      invariant r == InsertBreaks(base, GetterNames[..i])
    {
      var name := GetterNames[i];
      assert GetterNames[..i + 1][..i] == GetterNames[..i];
      r := ReplaceAll(r, name, "\n" + name);
      i := i + 1;
    }
    assert GetterNames[..i] == GetterNames;
  }

  lemma {:induction false} InsertBreaksAvoids(code: string, names: seq<string>, c: char)
    requires NonEmptyNames(names) && c != '\n' && c !in code
    requires forall i :: 0 <= i < |names| ==> c !in names[i]
    ensures c !in InsertBreaks(code, names)
    decreases |names|
  {
    if names != [] {
      var name := names[|names| - 1];
      InsertBreaksAvoids(code, names[..|names| - 1], c);
      ReplaceAllAvoids(InsertBreaks(code, names[..|names| - 1]), name, "\n" + name, c);
    }
  }

  lemma {:induction false} InsertBreaksOnlyBreaks(code: string, names: seq<string>)
    requires NonEmptyNames(names)
    ensures RemoveChar(InsertBreaks(code, names), '\n') == RemoveChar(code, '\n')
    decreases |names|
  {
    if names != [] {
      var name := names[|names| - 1];
      InsertBreaksOnlyBreaks(code, names[..|names| - 1]);
      RemoveCharAppend("\n", name, '\n');
      ReplaceAllModulo(InsertBreaks(code, names[..|names| - 1]), name, "\n" + name, '\n');
    }
  }

  /** Every line break of the extraction form is immediately followed by one of the getter names. */
  lemma ExtractionFormShape(code: string)
    ensures forall j :: 0 <= j < |ExtractionForm(code)| && ExtractionForm(code)[j] == '\n' ==>
              exists k :: 0 <= k < |GetterNames| && StartsWith(ExtractionForm(code)[j + 1..], GetterNames[k])
  {
    GetterNamesNonEmpty();
    GetterNamesPlain();
    var base := RemoveChar(RemoveChar(code, '\n'), '\r');
    GetterNamesSeparated();
    InsertBreaksBefore(base, GetterNames);
  }

  // Every line break of the extraction form starts a getter call. A replacement could
  // break that only by matching inside, or at the start of, a getter that follows an
  // earlier break; the shape of the getter names rules both out.

  /** Some name of `names` begins `s`. */
  ghost predicate StartsWithAny(s: string, names: seq<string>) {
    exists k :: 0 <= k < |names| && StartsWith(s, names[k])
  }

  /** Every line break of `s` is immediately followed by one of `names`. */
  ghost predicate BreaksBefore(s: string, names: seq<string>) {
    forall j :: 0 <= j < |s| && s[j] == '\n' ==> StartsWithAny(s[j + 1..], names)
  }

  /**
   * A name that starts with "ge", holds no line break or carriage return, and has no
   * later 'g' followed by 'e': another such name can start inside it only at position 0.
   */
  ghost predicate WellFormedName(a: string) {
    |a| >= 2 && a[0] == 'g' && a[1] == 'e' && a[|a| - 1] !in "g\n\r" &&
    forall m :: 0 <= m < |a| - 1 ==> a[m] != '\n' && a[m] != '\r' && (m == 0 || a[m] != 'g' || a[m + 1] != 'e')
  }

  /** `a` and `b` disagree at a position both have, so neither is a prefix of the other. */
  ghost predicate Differ(a: string, b: string) {
    exists m :: 0 <= m < |a| && m < |b| && a[m] != b[m]
  }

  predicate DifferAt(a: string, b: string, m: nat) {
    m < |a| && m < |b| && a[m] != b[m]
  }

  /** Well-formed names, each differing from every earlier one. */
  ghost predicate Separated(names: seq<string>) {
    (forall i :: 0 <= i < |names| ==> WellFormedName(names[i])) &&
    (forall i, j :: 0 <= j < i < |names| ==> Differ(names[j], names[i]))
  }

  lemma ValueGetterShape() ensures WellFormedName(GetterNames[0]) {}
  lemma NumberGetterShape() ensures WellFormedName(GetterNames[1]) {}
  lemma StringGetterShape() ensures WellFormedName(GetterNames[2]) {}
  lemma BoolGetterShape() ensures WellFormedName(GetterNames[3]) {}
  lemma ColorGetterShape() ensures WellFormedName(GetterNames[4]) {}
  lemma ComputedXGetterShape() ensures WellFormedName(GetterNames[5]) {}
  lemma ComputedYGetterShape() ensures WellFormedName(GetterNames[6]) {}
  lemma ComputedWidthGetterShape() ensures WellFormedName(GetterNames[7]) {}
  lemma ComputedHeightGetterShape() ensures WellFormedName(GetterNames[8]) {}
  lemma NumberMethodShape() ensures WellFormedName(GetterNames[9]) {}
  lemma StringMethodShape() ensures WellFormedName(GetterNames[10]) {}
  lemma BoolMethodShape() ensures WellFormedName(GetterNames[11]) {}
  lemma ColorMethodShape() ensures WellFormedName(GetterNames[12]) {}
  lemma PropertyMethodShape() ensures WellFormedName(GetterNames[13]) {}

  lemma MacroGettersDiffer()
    ensures forall i, j :: 0 <= j < i < 9 ==> Differ(GetterNames[j], GetterNames[i])
  {
    forall i, j | 0 <= j < i < 9 ensures Differ(GetterNames[j], GetterNames[i]) {
      var a, b := GetterNames[j], GetterNames[i];
      assert DifferAt(a, b, 4) || DifferAt(a, b, 6) || DifferAt(a, b, 8) || DifferAt(a, b, 9) || DifferAt(a, b, 13);
    }
  }

  lemma MethodGettersDiffer()
    ensures forall i, j :: 0 <= j < i && 9 <= i < |GetterNames| ==> Differ(GetterNames[j], GetterNames[i])
  {
    forall i, j | 0 <= j < i && 9 <= i < |GetterNames| ensures Differ(GetterNames[j], GetterNames[i]) {
      var a, b := GetterNames[j], GetterNames[i];
      assert DifferAt(a, b, 4) || DifferAt(a, b, 6) || DifferAt(a, b, 8) || DifferAt(a, b, 9) || DifferAt(a, b, 10);
    }
  }

  /** The getter names are well formed and pairwise divergent. */
  lemma GetterNamesSeparated()
    ensures Separated(GetterNames)
  {
    forall i | 0 <= i < |GetterNames| ensures WellFormedName(GetterNames[i]) {
      if i == 0 { ValueGetterShape(); }
      else if i == 1 { NumberGetterShape(); }
      else if i == 2 { StringGetterShape(); }
      else if i == 3 { BoolGetterShape(); }
      else if i == 4 { ColorGetterShape(); }
      else if i == 5 { ComputedXGetterShape(); }
      else if i == 6 { ComputedYGetterShape(); }
      else if i == 7 { ComputedWidthGetterShape(); }
      else if i == 8 { ComputedHeightGetterShape(); }
      else if i == 9 { NumberMethodShape(); }
      else if i == 10 { StringMethodShape(); }
      else if i == 11 { BoolMethodShape(); }
      else if i == 12 { ColorMethodShape(); }
      else { PropertyMethodShape(); }
    }
    MacroGettersDiffer();
    MethodGettersDiffer();
  }

  /** A text starting with name `a` holds no occurrence of `pat` among its first `|a|` positions. */
  lemma NoEarlyOccurrence(t: string, a: string, pat: string)
    requires StartsWith(t, a) && WellFormedName(a) && WellFormedName(pat) && Differ(a, pat)
    ensures forall o :: 0 <= o < |a| ==> !OccursAt(t, pat, o)
  {
    forall o | 0 <= o < |a| ensures !OccursAt(t, pat, o) {
      assert t[o] == a[o];
      if o + |pat| > |t| {
      } else if o == 0 {
        var m :| 0 <= m < |a| && m < |pat| && a[m] != pat[m];
        assert t[m] == a[m];
        assert t[o..o + |pat|][m] != pat[m];
      } else if a[o] == 'g' {
        assert o + 1 < |a| && a[o + 1] != 'e';
        assert t[o + 1] == a[o + 1];
        assert t[o..o + |pat|][1] != pat[1];
      } else {
        assert t[o..o + |pat|][0] != pat[0];
      }
    }
  }

  lemma StartsWithAnyGrow(s: string, names: seq<string>, pat: string)
    requires StartsWithAny(s, names)
    ensures StartsWithAny(s, names + [pat])
  {
    var k :| 0 <= k < |names| && StartsWith(s, names[k]);
    assert (names + [pat])[k] == names[k];
  }

  lemma BreaksBeforeSuffix(s: string, names: seq<string>, d: nat)
    requires d <= |s| && BreaksBefore(s, names)
    ensures BreaksBefore(s[d..], names)
  {
    forall j | 0 <= j < |s[d..]| && s[d..][j] == '\n' ensures StartsWithAny(s[d..][j + 1..], names) {
      assert s[d..][j] == s[d + j];
      assert s[d..][j + 1..] == s[d + j + 1..];
    }
  }

  /** A break before `pat`, in front of a text whose breaks each precede a name. */
  lemma BreakThenName(pat: string, rest: string, all: seq<string>)
    requires WellFormedName(pat) && |all| > 0 && all[|all| - 1] == pat && BreaksBefore(rest, all)
    ensures BreaksBefore("\n" + pat + rest, all)
  {
    var r := "\n" + pat + rest;
    forall j | 1 <= j <= |pat| ensures r[j] != '\n' {
      assert r[j] == pat[j - 1];
    }
    forall j | 0 <= j < |r| && r[j] == '\n' ensures StartsWithAny(r[j + 1..], all) {
      if j == 0 {
        assert r[1..][..|pat|] == pat;
        assert StartsWith(r[1..], all[|all| - 1]);
      } else if j > |pat| {
        assert r[j] == rest[j - |pat| - 1];
        assert r[j + 1..] == rest[j - |pat|..];
      }
    }
  }

  /** One character in front of a text whose breaks each precede a name. */
  lemma CharThenRest(c: char, rest: string, all: seq<string>)
    requires BreaksBefore(rest, all) && (c == '\n' ==> StartsWithAny(rest, all))
    ensures BreaksBefore([c] + rest, all)
  {
    var r := [c] + rest;
    assert r[1..] == rest;
    forall j | 0 <= j < |r| && r[j] == '\n' ensures StartsWithAny(r[j + 1..], all) {
      if j > 0 {
        assert r[j] == rest[j - 1];
        assert r[j + 1..] == rest[j..];
      }
    }
  }

  /**
   * Putting a break before each `pat` keeps every earlier break in front of a name, and
   * each new break stands before `pat`.
   */
  lemma {:induction false} ReplaceBreaks(s: string, pat: string, names: seq<string>)
    requires WellFormedName(pat) && BreaksBefore(s, names)
    requires forall k :: 0 <= k < |names| ==> WellFormedName(names[k]) && Differ(names[k], pat)
    ensures BreaksBefore(ReplaceAll(s, pat, "\n" + pat), names + [pat])
    decreases |s|
  {
    var all := names + [pat];
    if |s| < |pat| {
      forall j | 0 <= j < |s| && s[j] == '\n' ensures StartsWithAny(s[j + 1..], all) {
        StartsWithAnyGrow(s[j + 1..], names, pat);
      }
    } else if s[..|pat|] == pat {
      BreaksBeforeSuffix(s, names, |pat|);
      ReplaceBreaks(s[|pat|..], pat, names);
      BreakThenName(pat, ReplaceAll(s[|pat|..], pat, "\n" + pat), all);
    } else {
      BreaksBeforeSuffix(s, names, 1);
      ReplaceBreaks(s[1..], pat, names);
      var rest := ReplaceAll(s[1..], pat, "\n" + pat);
      if s[0] == '\n' {
        assert StartsWithAny(s[0 + 1..], names);
        var k :| 0 <= k < |names| && StartsWith(s[1..], names[k]);
        NoEarlyOccurrence(s[1..], names[k], pat);
        ReplaceAllKeepsStart(s[1..], names[k], pat, "\n" + pat);
        assert all[k] == names[k];
      }
      CharThenRest(s[0], rest, all);
    }
  }

  /** Inserting breaks for separated names into a text without breaks puts each before a name. */
  lemma {:induction false} InsertBreaksBefore(code: string, names: seq<string>)
    requires '\n' !in code && Separated(names)
    ensures NonEmptyNames(names) && BreaksBefore(InsertBreaks(code, names), names)
    decreases |names|
  {
    if names != [] {
      var init := names[..|names| - 1];
      var pat := names[|names| - 1];
      forall k | 0 <= k < |init| ensures WellFormedName(init[k]) && Differ(init[k], pat) {
        assert init[k] == names[k];
      }
      assert Separated(init) by {
        forall i, j | 0 <= j < i < |init| ensures Differ(init[j], init[i]) {
          assert init[j] == names[j] && init[i] == names[i];
        }
      }
      InsertBreaksBefore(code, init);
      ReplaceBreaks(InsertBreaks(code, init), pat, init);
      assert init + [pat] == names;
    }
  }

  lemma {:induction false} RemoveCharAbsent(s: string, c: char)
    requires c !in s
    ensures RemoveChar(s, c) == s
    decreases |s|
  {
    if s != [] {
      RemoveCharAbsent(s[1..], c);
    }
  }

  // ---- find_related_property_for_binding ----

  /** Whether `s` contains one of `names`. */
  predicate ContainsAny(s: string, names: seq<string>) {
    exists i :: 0 <= i < |names| && Contains(s, names[i])
  }

  /** What one trimmed line of a binding block contributes. `Panic` is a reversed slice. */
  datatype LineResult = Skip | Dep(node: string, prop: string) | Panic

  /** Rust `split(',').map(|s| s.trim())`. */
  function TrimmedParts(s: string): (r: seq<string>)
    ensures |r| == |Split(s, ',')|
    ensures forall k :: 0 <= k < |r| ==> r[k] == Trim(Split(s, ',')[k])
  {
    var parts := Split(s, ',');
    seq(|parts|, k requires 0 <= k < |parts| => Trim(parts[k]))
  }

  /**
   * The dependency a line names. Macro-form lines slice from the first '(' to the first ')'
   * and need three arguments (engine, node, property); method-form lines slice to the last
   * ')' and need two (node, property). The binding's own property is skipped.
   */
  function LineDependency(id: string, property: string, line: string): (r: LineResult)
    ensures r.Dep? ==> (r.node, r.prop) != (id, property)
    ensures r.Dep? ==> ContainsAny(line, GetterNames)
  {
    var macroForm := ContainsAny(line, MacroGetters);
    if !macroForm && !ContainsAny(line, MethodGetters) then Skip
    else
      match IndexOf(line, '(')
      case None => Skip
      case Some(start) =>
        var close := if macroForm then IndexOf(line, ')') else RFindChar(line, ')');
        match close
        case None => Skip
        case Some(end) =>
          if end < start + 1 then Panic
          else
            var parts := TrimmedParts(line[start + 1..end]);
            var nodeAt := if macroForm then 1 else 0;
            if |parts| < nodeAt + 2 then Skip
            else
              var node := Trim(parts[nodeAt]);
              var prop := TrimMatches(Trim(parts[nodeAt + 1]), '"');
              if node == id && prop == property then Skip else Dep(node, prop)
  }

  /** Adding one line's result to the dependencies found so far. */
  function Extend(found: Option<seq<(string, string)>>, line: LineResult): Option<seq<(string, string)>> {
    match found
    case None => None
    case Some(prev) =>
      match line
      case Skip => Some(prev)
      case Panic => None
      case Dep(n, p) => Some(prev + [(n, p)])
  }

  /** The dependencies of the lines in order, or None when a line panics. */
  function Candidates(id: string, property: string, lines: seq<string>): (r: Option<seq<(string, string)>>)
    ensures r.Some? ==> (id, property) !in r.value
  {
    if lines == [] then Some([])
    else Extend(Candidates(id, property, lines[..|lines| - 1]), LineDependency(id, property, Trim(lines[|lines| - 1])))
  }

  lemma CandidatesSnoc(id: string, property: string, lines: seq<string>, i: nat)
    requires i < |lines|
    ensures Candidates(id, property, lines[..i + 1]) ==
            Extend(Candidates(id, property, lines[..i]), LineDependency(id, property, Trim(lines[i])))
  {
    assert lines[..i + 1][..i] == lines[..i];
  }

  /** Once a line panics, so does the whole block. */
  lemma {:induction false} PanicIsFinal(id: string, property: string, lines: seq<string>, k: nat)
    requires k <= |lines| && Candidates(id, property, lines[..k]).None?
    ensures Candidates(id, property, lines).None?
    decreases |lines|
  {
    if k < |lines| {
      assert lines[..|lines| - 1][..k] == lines[..k];
      PanicIsFinal(id, property, lines[..|lines| - 1], k);
    } else {
      assert lines[..k] == lines;
    }
  }

  /** `retain` with a seen-set: the first occurrence of each element, in order. */
  function Dedup<T(==,!new)>(s: seq<T>): (r: seq<T>)
    ensures forall x :: x in r <==> x in s
  {
    if s == [] then []
    else
      var d := Dedup(s[..|s| - 1]);
      if s[|s| - 1] in s[..|s| - 1] then d else d + [s[|s| - 1]]
  }

  lemma {:induction false} DedupNoDup<T(!new)>(s: seq<T>)
    ensures NoDup(Dedup(s))
    decreases |s|
  {
    if s != [] {
      DedupNoDup(s[..|s| - 1]);
    }
  }

  /** Deduplicating a prefix gives a prefix: each element keeps the place of its first occurrence. */
  lemma {:induction false} DedupPrefix<T(!new)>(s: seq<T>, k: nat)
    requires k <= |s|
    ensures |Dedup(s[..k])| <= |Dedup(s)| && Dedup(s[..k]) == Dedup(s)[..|Dedup(s[..k])|]
    decreases |s|
  {
    if k < |s| {
      var init := s[..|s| - 1];
      assert init[..k] == s[..k];
      DedupPrefix(init, k);
    } else {
      assert s[..k] == s;
    }
  }

  /** The result of `find_related_property_for_binding`; None when the source would panic. */
  function RelatedProperties(id: string, property: string, block: string): (r: Option<seq<(string, string)>>)
    ensures r.None? <==> Candidates(id, property, Lines(ExtractionForm(block))).None?
    ensures r.Some? ==>
      NoDup(r.value) && (id, property) !in r.value &&
      forall x :: x in r.value <==> x in Candidates(id, property, Lines(ExtractionForm(block))).value
  {
    match Candidates(id, property, Lines(ExtractionForm(block)))
    case None => None
    case Some(c) => DedupNoDup(c); Some(Dedup(c))
  }

  /** The line loop of `find_related_property_for_binding`. */
  method CollectDependencies(id: string, property: string, lines: seq<string>)
    returns (r: Option<seq<(string, string)>>)
    ensures r == Candidates(id, property, lines)
  {
    var related: seq<(string, string)> := [];
    var i := 0;
    while i < |lines|
      invariant 0 <= i <= |lines|
      invariant Candidates(id, property, lines[..i]) == Some(related)
    {
      var dependency := LineDependency(id, property, Trim(lines[i]));
      CandidatesSnoc(id, property, lines, i);
      match dependency {
        case Skip =>
        case Panic =>
          PanicIsFinal(id, property, lines, i + 1);
          return None;
        case Dep(n, p) =>
          related := related + [(n, p)];
      }
      i := i + 1;
    }
    assert lines[..i] == lines;
    r := Some(related);
  }

  /** `retain(|item| seen.insert(item.clone()))`. */
  method RetainFirstOccurrences<T(==,!new)>(s: seq<T>) returns (kept: seq<T>)
    ensures kept == Dedup(s)
  {
    var seen: set<T> := {};
    kept := [];
    var j := 0;
    while j < |s|
      invariant 0 <= j <= |s|
      invariant kept == Dedup(s[..j])
      invariant forall x :: x in seen <==> x in s[..j]
    {
      var item := s[j];
      assert s[..j + 1][..j] == s[..j];
      if item !in seen {
        kept := kept + [item];
        seen := seen + {item};
      }
      j := j + 1;
    }
    assert s[..j] == s;
  }

  /**
   * `find_related_property_for_binding`: the (node, property) pairs the block reads, first
   * occurrences only, never the binding's own pair.
   */
  method FindRelatedPropertyForBinding(id: string, property: string, block: string)
    returns (r: Option<seq<(string, string)>>)
    ensures r == RelatedProperties(id, property, block)
    ensures r.Some? ==> (id, property) !in r.value && NoDup(r.value)
  {
    var formatted := FormatCodeForBindingExtraction(block);
    var found := CollectDependencies(id, property, Lines(formatted));
    match found {
      case None =>
        r := None;
      case Some(related) =>
        var kept := RetainFirstOccurrences(related);
        DedupNoDup(related);
        r := Some(kept);
    }
  }

  /**
   * A macro-form getter with fewer than three comma-separated arguments names no
   * dependency, so `get_computed_x!(engine, n)` never adds one.
   */
  lemma ShortMacroCallIgnored(id: string, property: string, line: string, start: nat, end: nat)
    requires ContainsAny(line, MacroGetters)
    requires IndexOf(line, '(') == Some(start) && IndexOf(line, ')') == Some(end) && start < end
    requires |Split(line[start + 1..end], ',')| < 3
    ensures LineDependency(id, property, line) == Skip
  {
  }

  /** A method-form getter whose slice reaches back before its '(' panics. */
  lemma ReversedMethodSlicePanics(id: string, property: string, line: string, start: nat, end: nat)
    requires !ContainsAny(line, MacroGetters) && ContainsAny(line, MethodGetters)
    requires IndexOf(line, '(') == Some(start) && RFindChar(line, ')') == Some(end) && end < start
    ensures LineDependency(id, property, line) == Panic
  {
  }

  // ---- inject_engine_text_based ----

  /** The engine argument: `&mut engine` in a definition or when mutable, else `engine`. */
  function EngineArgument(engineStr: string, definition: bool, mutable: bool): (r: string)
    ensures definition || mutable <==> r == "&mut " + engineStr
  {
    if definition || mutable then "&mut " + engineStr else engineStr
  }

  /** One line: every `f(` becomes `f(<engine>` unless the line contains `fn f(`. */
  function InjectLine(line: string, engineArg: string, functions: seq<string>): (r: string)
    ensures '\n' !in line && Unbroken(engineArg, functions) ==> '\n' !in r
  {
    if functions == [] then line
    else
      var f := functions[|functions| - 1];
      var prev := InjectLine(line, engineArg, functions[..|functions| - 1]);
      assert Unbroken(engineArg, functions) ==> Unbroken(engineArg, functions[..|functions| - 1]);
      ReplaceAllKeepsOut(prev, f + "(", f + "(" + engineArg, '\n');
      if Contains(line, "fn " + f + "(") then prev else ReplaceAll(prev, f + "(", f + "(" + engineArg)
  }

  /** Every line rewritten and terminated by '\n'. */
  function InjectLines(lines: seq<string>, engineArg: string, functions: seq<string>): string {
    if lines == [] then []
    else InjectLines(lines[..|lines| - 1], engineArg, functions) + InjectLine(lines[|lines| - 1], engineArg, functions) + "\n"
  }

  /** `inject_engine_text_based`. */
  method InjectEngineTextBased(input: string, engineStr: string, definition: bool, mutable: bool,
                               functions: seq<string>) returns (output: string)
    ensures output == InjectLines(Lines(input), EngineArgument(engineStr, definition, mutable), functions)
  {
    var engineArg := EngineArgument(engineStr, definition, mutable);
    var lines := Lines(input);
    output := [];
    var i := 0;
    while i < |lines|
      invariant 0 <= i <= |lines|
      invariant output == InjectLines(lines[..i], engineArg, functions)
    {
      var line := lines[i];
      var modified := line;
      var j := 0;
      while j < |functions|
        invariant 0 <= j <= |functions|
        invariant modified == InjectLine(line, engineArg, functions[..j])
      {
        var f := functions[j];
        assert functions[..j + 1][..j] == functions[..j];
        if !Contains(line, "fn " + f + "(") {
          modified := ReplaceAll(modified, f + "(", f + "(" + engineArg);
        }
        j := j + 1;
      }
      assert functions[..j] == functions;
      assert lines[..i + 1][..i] == lines[..i];
      output := output + modified + "\n";
      i := i + 1;
    }
    assert lines[..i] == lines;
  }

  /** Names and the engine argument never hold a line break. */
  ghost predicate Unbroken(engineArg: string, functions: seq<string>) {
    '\n' !in engineArg && forall k :: 0 <= k < |functions| ==> '\n' !in functions[k]
  }

  /** Replacing never brings in a character that neither the text nor the replacement holds. */
  lemma ReplaceAllKeepsOut(s: string, pat: string, rep: string, c: char)
    requires |pat| > 0
    ensures c !in s && c !in rep ==> c !in ReplaceAll(s, pat, rep)
  {
    if c !in s && c !in rep {
      ReplaceAllAvoids(s, pat, rep, c);
    }
  }

  /** The output has exactly one '\n' per input line. */
  lemma {:induction false} OneBreakPerLine(lines: seq<string>, engineArg: string, functions: seq<string>)
    requires forall k :: 0 <= k < |lines| ==> '\n' !in lines[k]
    requires Unbroken(engineArg, functions)
    ensures CountChar(InjectLines(lines, engineArg, functions), '\n') == |lines|
    decreases |lines|
  {
    if lines != [] {
      var init := lines[..|lines| - 1];
      var last := InjectLine(lines[|lines| - 1], engineArg, functions);
      OneBreakPerLine(init, engineArg, functions);
      CountCharAbsent(last, '\n');
      CountCharAppend(InjectLines(init, engineArg, functions), last, '\n');
      CountCharAppend(InjectLines(init, engineArg, functions) + last, "\n", '\n');
    }
  }

  /** A line that defines every listed function is left as it is. */
  lemma {:induction false} DefinitionLineUnchanged(line: string, engineArg: string, functions: seq<string>)
    requires forall k :: 0 <= k < |functions| ==> Contains(line, "fn " + functions[k] + "(")
    ensures InjectLine(line, engineArg, functions) == line
    decreases |functions|
  {
    if functions != [] {
      DefinitionLineUnchanged(line, engineArg, functions[..|functions| - 1]);
    }
  }

  /** A line that calls none of the listed functions is left as it is. */
  lemma {:induction false} NoCallUnchanged(line: string, engineArg: string, functions: seq<string>)
    requires forall k, j :: 0 <= k < |functions| && 0 <= j <= |line| ==> !OccursAt(line, functions[k] + "(", j)
    ensures InjectLine(line, engineArg, functions) == line
    decreases |functions|
  {
    if functions != [] {
      var f := functions[|functions| - 1];
      NoCallUnchanged(line, engineArg, functions[..|functions| - 1]);
      if !Contains(line, "fn " + f + "(") {
        ReplaceAllAbsent(line, f + "(", f + "(" + engineArg);
      }
    }
  }

  // ---- inject_engine_in_block ----

  /** The expressions the rewrite distinguishes; everything else is opaque code. */
  datatype Expr =
    | PathExpr(segments: seq<string>)
    | RefMut(inner: Expr)
    | CallExpr(callee: Expr, args: seq<Expr>)
    | OtherExpr(code: string)

  /** A statement: an expression statement (with or without ';') or anything else. */
  datatype Stmt = ExprStmt(expr: Expr, semi: bool) | OtherStmt(code: string)

  /** `p.path.is_ident("engine")`. */
  predicate IsEnginePath(e: Expr) {
    e == PathExpr(["engine"])
  }

  function EngineExpr(initializer: bool): Expr {
    if initializer then RefMut(PathExpr(["engine"])) else PathExpr(["engine"])
  }

  /** A top-level call without a bare `engine` argument gets one in front. */
  function InjectInStmt(s: Stmt, initializer: bool): (r: Stmt)
    ensures !(s.ExprStmt? && s.expr.CallExpr?) ==> r == s
  {
    match s
    case ExprStmt(CallExpr(callee, args), semi) =>
      if exists k :: 0 <= k < |args| && IsEnginePath(args[k]) then s
      else ExprStmt(CallExpr(callee, [EngineExpr(initializer)] + args), semi)
    case _ => s
  }

  /** `inject_engine_in_block`: the statement-wise rewrite. */
  function InjectEngineInBlock(block: seq<Stmt>, initializer: bool): (r: seq<Stmt>)
    ensures |r| == |block|
    ensures forall i :: 0 <= i < |block| ==> r[i] == InjectInStmt(block[i], initializer)
  {
    seq(|block|, i requires 0 <= i < |block| => InjectInStmt(block[i], initializer))
  }

  /** A call statement ends up with an `engine` argument first, or already had a bare one. */
  lemma CallsGetEngine(block: seq<Stmt>, initializer: bool, i: nat)
    requires i < |block| && block[i].ExprStmt? && block[i].expr.CallExpr?
    ensures var r := InjectEngineInBlock(block, initializer)[i];
      r.ExprStmt? && r.expr.CallExpr? && r.expr.callee == block[i].expr.callee && r.semi == block[i].semi &&
      ((exists k :: 0 <= k < |block[i].expr.args| && IsEnginePath(block[i].expr.args[k])) <==>
       r.expr.args == block[i].expr.args) &&
      (r.expr.args == block[i].expr.args || r.expr.args == [EngineExpr(initializer)] + block[i].expr.args)
  {
    var args := block[i].expr.args;
    if !exists k :: 0 <= k < |args| && IsEnginePath(args[k]) {
      assert |[EngineExpr(initializer)] + args| != |args|;
    }
  }

  /** Outside initializers the rewrite is idempotent: the inserted `engine` is recognised. */
  lemma PlainInjectionIdempotent(block: seq<Stmt>)
    ensures InjectEngineInBlock(InjectEngineInBlock(block, false), false) == InjectEngineInBlock(block, false)
  {
    var once := InjectEngineInBlock(block, false);
    forall i | 0 <= i < |block|
      ensures InjectInStmt(once[i], false) == once[i]
    {
      if block[i].ExprStmt? && block[i].expr.CallExpr? {
        var args := once[i].expr.args;
        if !exists k :: 0 <= k < |block[i].expr.args| && IsEnginePath(block[i].expr.args[k]) {
          assert IsEnginePath(args[0]);
        }
      }
    }
  }

  /** In initializers it is not: `&mut engine` is not a bare `engine`, so a second pass inserts again. */
  lemma InitializerInjectionRepeats()
    ensures var block := [ExprStmt(CallExpr(PathExpr(["f"]), []), true)];
      InjectEngineInBlock(InjectEngineInBlock(block, true), true) ==
      [ExprStmt(CallExpr(PathExpr(["f"]), [EngineExpr(true), EngineExpr(true)]), true)]
  {
    var block := [ExprStmt(CallExpr(PathExpr(["f"]), []), true)];
    var once := InjectEngineInBlock(block, true);
    assert [EngineExpr(true)] + [] == [EngineExpr(true)];
    assert InjectInStmt(block[0], true) == ExprStmt(CallExpr(PathExpr(["f"]), [EngineExpr(true)]), true);
    assert once == [ExprStmt(CallExpr(PathExpr(["f"]), [EngineExpr(true)]), true)];
    assert [EngineExpr(true)] + [EngineExpr(true)] == [EngineExpr(true), EngineExpr(true)];
    assert !IsEnginePath(EngineExpr(true));
  }
}
