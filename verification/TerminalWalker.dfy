/** The walk that ends generation at the depth limit, over schemas that may refer to themselves. */
module TerminalWalker {
  import opened Strings
  import opened Json
  import opened RefResolver
  import Merge
  import StaticWalker

  const MAX_GENERATED_STRING_LENGTH: nat := 0x10_0000

  /** Some branch of `oneOf` or `anyOf` is the null type. */
  predicate AllowsNull(schema: Value) {
    exists kw, i | kw in {"oneOf", "anyOf"} && 0 <= i < |schema.ArrayAt(kw)| ::
      schema.ArrayAt(kw)[i].HasStr("type") && schema.ArrayAt(kw)[i].fields["type"].s == "null"
  }

  function Without(v: Value, key: string): Value {
    if v.Obj? then Obj(v.fields - {key}) else v
  }

  /** What folding the branches has produced so far. */
  datatype Fold = Fold(base: Value, mergedAny: bool, visited: seq<string>)

  function FoldBranch(doc: Document, acc: Fold, branch: Value): Fold {
    if branch.HasStr("$ref") then
      var r := branch.fields["$ref"].s;
      if r in acc.visited || Resolve(doc, r).None? then acc
      else Fold(Merge.Merge(acc.base, Without(Resolve(doc, r).value, "allOf")), true, acc.visited + [r])
    else if branch == Bool(false) then acc
    else Fold(Merge.Merge(acc.base, Without(branch, "allOf")), true, acc.visited)
  }

  function FoldBranches(doc: Document, acc: Fold, branches: seq<Value>): Fold
    decreases |branches|
  {
    if branches == [] then acc else FoldBranches(doc, FoldBranch(doc, acc, branches[0]), branches[1..])
  }

  function Folded(schema: Value, doc: Document, visited: seq<string>): Fold {
    FoldBranches(doc, Fold(Without(schema, "allOf"), false, visited), schema.ArrayAt("allOf"))
  }

  // ---- why the walk ends ----

  /** A fold over branches of `schema` stays within its references, and within its height until it follows one. */
  ghost predicate Within(acc: Fold, schema: Value, doc: Document, visited: seq<string>) {
    && visited <= acc.visited
    && Refs(acc.base) <= Refs(schema) + DocRefs(doc)
    && (acc.visited == visited ==> Height(acc.base) <= Height(schema))
    && (forall i | |visited| <= i < |acc.visited| :: acc.visited[i] in Refs(schema) && acc.visited[i] !in visited)
  }

  lemma WithoutIsNoBigger(v: Value, key: string)
    ensures Refs(Without(v, key)) <= Refs(v)
    ensures Height(Without(v, key)) <= Height(v)
  {
    if v.Obj? {
      ObjectHeight(v, Height(v));
      ObjectHeight(Without(v, key), Height(v));
    }
  }

  lemma FoldBranchStays(doc: Document, acc: Fold, branch: Value, schema: Value, visited: seq<string>)
    requires Within(acc, schema, doc, visited)
    requires branch in schema.ArrayAt("allOf")
    ensures Within(FoldBranch(doc, acc, branch), schema, doc, visited)
  {
    var list := schema.fields["allOf"];
    assert Refs(branch) <= Refs(list) && Refs(list) <= Refs(schema);
    ArrayHeight(list, Height(list));
    ObjectHeight(schema, Height(schema));
    if branch.HasStr("$ref") {
      var r := branch.fields["$ref"].s;
      assert r in Refs(branch);
      if r !in acc.visited && Resolve(doc, r).Some? {
        var target := Resolve(doc, r).value;
        ResolveAddsNoReference(doc, r);
        WithoutIsNoBigger(target, "allOf");
        Merge.MergeAddsNoReference(acc.base, Without(target, "allOf"));
        assert (acc.visited + [r])[|acc.visited|] == r;
        assert acc.visited + [r] != visited;
      }
    } else if branch != Bool(false) {
      WithoutIsNoBigger(branch, "allOf");
      Merge.MergeAddsNoReference(acc.base, Without(branch, "allOf"));
      if acc.visited == visited {
        Merge.MergeIsNoHigher(acc.base, Without(branch, "allOf"), Height(schema));
      }
    }
  }

  lemma {:induction false} FoldBranchesStay(doc: Document, acc: Fold, branches: seq<Value>, schema: Value,
                                            visited: seq<string>)
    requires Within(acc, schema, doc, visited)
    requires forall b | b in branches :: b in schema.ArrayAt("allOf")
    ensures Within(FoldBranches(doc, acc, branches), schema, doc, visited)
    decreases |branches|
  {
    if branches != [] {
      FoldBranchStays(doc, acc, branches[0], schema, visited);
      FoldBranchesStay(doc, FoldBranch(doc, acc, branches[0]), branches[1..], schema, visited);
    }
  }

  ghost function Pending(schema: Value): nat {
    if schema.ArrayAt("allOf") != [] then 1 else 0
  }

  /** Collapsing `allOf` enters a new reference, or else loses the keyword without growing. */
  lemma CollapsingShrinks(schema: Value, doc: Document, visited: seq<string>)
    requires schema.ArrayAt("allOf") != []
    ensures var acc := Folded(schema, doc, visited);
            var next := Without(acc.base, "allOf");
            && Pending(next) == 0
            && visited <= acc.visited
            && (|| StaticWalker.Unvisited(next, doc, acc.visited) < StaticWalker.Unvisited(schema, doc, visited)
                || (&& StaticWalker.Unvisited(next, doc, acc.visited) == StaticWalker.Unvisited(schema, doc, visited)
                    && Height(next) <= Height(schema)))
  {
    var start := Fold(Without(schema, "allOf"), false, visited);
    WithoutIsNoBigger(schema, "allOf");
    FoldBranchesStay(doc, start, schema.ArrayAt("allOf"), schema, visited);
    var acc := Folded(schema, doc, visited);
    var next := Without(acc.base, "allOf");
    WithoutIsNoBigger(acc.base, "allOf");
    EntersNew(schema, next, acc, doc, visited);
  }

  lemma EntersNew(schema: Value, next: Value, acc: Fold, doc: Document, visited: seq<string>)
    requires Within(acc, schema, doc, visited) && Refs(next) <= Refs(acc.base)
    ensures StaticWalker.Unvisited(next, doc, acc.visited) <= StaticWalker.Unvisited(schema, doc, visited)
    ensures acc.visited != visited ==>
              StaticWalker.Unvisited(next, doc, acc.visited) < StaticWalker.Unvisited(schema, doc, visited)
  {
    var before := Refs(schema) + DocRefs(doc) - StaticWalker.Entered(visited);
    var after := Refs(next) + DocRefs(doc) - StaticWalker.Entered(acc.visited);
    assert after <= before;
    StaticWalker.SubsetSize(after, before);
    if acc.visited != visited {
      var r := acc.visited[|visited|];
      StaticWalker.SmallerSet(after, before, r);
    }
  }

  lemma PropertyShrinks(schema: Value, doc: Document, visited: seq<string>, key: string)
    requires schema.Obj? && schema.Has("type")
    ensures var child := StaticWalker.PropertySchema(schema, key);
            && StaticWalker.Unvisited(child, doc, visited) <= StaticWalker.Unvisited(schema, doc, visited)
            && (Height(child) < Height(schema) || child == StaticWalker.EMPTY)
  {
    var child := StaticWalker.PropertySchema(schema, key);
    var props := schema.ObjectAt("properties");
    if key in props {
      var holder := schema.fields["properties"];
      ObjectHeight(holder, Height(holder));
      ObjectHeight(schema, Height(schema));
      assert Refs(child) <= Refs(holder) && Refs(holder) <= Refs(schema);
    }
    StaticWalker.SubsetSize(Refs(child) + DocRefs(doc) - StaticWalker.Entered(visited),
                            Refs(schema) + DocRefs(doc) - StaticWalker.Entered(visited));
  }

  // ---- the walk as a function ----

  predicate HasNumber(schema: Value, key: string) {
    schema.Has(key) && schema.fields[key].Num?
  }

  /** Half away from zero. */
  function Round(r: real): int {
    if r >= 0.0 then (r + 0.5).Floor else -((0.5 - r).Floor)
  }

  /** Zero where the bounds admit it, else the bound next to zero. */
  function Nearest(schema: Value): real {
    if HasNumber(schema, "minimum") && AsReal(schema.fields["minimum"].n) > 0.0 then AsReal(schema.fields["minimum"].n)
    else if HasNumber(schema, "maximum") && AsReal(schema.fields["maximum"].n) < 0.0
    then AsReal(schema.fields["maximum"].n)
    else 0.0
  }

  function Letters(n: nat): string {
    seq(n, _ => 'a')
  }

  /** `text` stands for the string generator, run where a pattern or a format is given. */
  function TerminalString(schema: Value, text: Value -> string): Value {
    if schema.Has("pattern") || schema.Has("format") then Str(text(schema))
    else
      var wanted := if schema.HasCount("minLength") then schema.CountAt("minLength") else 0;
      Str(Letters(if wanted < MAX_GENERATED_STRING_LENGTH then wanted else MAX_GENERATED_STRING_LENGTH))
  }

  /** An empty schema outside its own object ranks below the schema that lacks it. */
  ghost function Rank(schema: Value): nat {
    if schema == StaticWalker.EMPTY then 0 else Height(schema) + 1
  }

  function Terminal(schema: Value, doc: Document, text: Value -> string, visited: seq<string>): Value
    decreases StaticWalker.Unvisited(schema, doc, visited), Rank(schema), Pending(schema)
  {
    if AllowsNull(schema) then Null
    else if schema.ArrayAt("allOf") != [] && Folded(schema, doc, visited).mergedAny then
      CollapsingShrinks(schema, doc, visited);
      var acc := Folded(schema, doc, visited);
      assert schema != StaticWalker.EMPTY;
      Terminal(Without(acc.base, "allOf"), doc, text, acc.visited)
    else if schema.HasStr("$ref") then
      var r := schema.fields["$ref"].s;
      if r in visited then Null
      else if Resolve(doc, r).None? then StaticWalker.EMPTY
      else
        StaticWalker.EnteringVisits(schema, doc, visited);
        Terminal(Resolve(doc, r).value, doc, text, visited + [r])
    else if schema.HasStr("type") then
      match schema.fields["type"].s
      case "string" => TerminalString(schema, text)
      case "number" => Num(Fraction(Nearest(schema)))
      case "integer" => Num(Fraction(Round(Nearest(schema)) as real))
      case "boolean" => Bool(false)
      case "array" => Arr([])
      case "object" =>
        Obj(map k | k in StaticWalker.Required(schema) ::
              PropertyShrinks(schema, doc, visited, k);
              Terminal(StaticWalker.PropertySchema(schema, k), doc, text, visited))
      case _ => Null
    else Null
  }

  // ---- the walk as the source runs it ----

  method CheckNull(schema: Value) returns (found: bool)
    ensures found == AllowsNull(schema)
  {
    var keywords := ["oneOf", "anyOf"];
    for n := 0 to 2
      invariant forall kw, i | kw in keywords[..n] && 0 <= i < |schema.ArrayAt(kw)| ::
          !(schema.ArrayAt(kw)[i].HasStr("type") && schema.ArrayAt(kw)[i].fields["type"].s == "null")
    {
      var branches := schema.ArrayAt(keywords[n]);
      for i := 0 to |branches|
        invariant forall j | 0 <= j < i ::
            !(branches[j].HasStr("type") && branches[j].fields["type"].s == "null")
      {
        if branches[i].HasStr("type") && branches[i].fields["type"].s == "null" {
          assert keywords[n] in {"oneOf", "anyOf"};
          return true;
        }
      }
      assert keywords[..n + 1] == keywords[..n] + [keywords[n]];
    }
    assert keywords[..2] == keywords && keywords[0] == "oneOf" && keywords[1] == "anyOf";
    return false;
  }

  method MergeAllOf(schema: Value, doc: Document, visited: RefStack) returns (merged: Option<Value>)
    modifies visited
    ensures schema.ArrayAt("allOf") == [] ==> merged == None && visited.refs == old(visited.refs)
    ensures var acc := Folded(schema, doc, old(visited.refs));
            schema.ArrayAt("allOf") != [] ==>
              && visited.refs == acc.visited
              && merged == if acc.mergedAny then Some(Without(acc.base, "allOf")) else None
  {
    var branches := schema.ArrayAt("allOf");
    if branches == [] {
      return None;
    }
    var base := Without(schema, "allOf");
    var mergedAny := false;
    assert branches[0..] == branches;
    for i := 0 to |branches|
      invariant FoldBranches(doc, Fold(base, mergedAny, visited.refs), branches[i..])
             == Folded(schema, doc, old(visited.refs))
    {
      assert branches[i..][1..] == branches[i + 1..];
      var resolved := branches[i];
      if resolved.HasStr("$ref") {
        var r := resolved.fields["$ref"].s;
        if r in visited.refs {
          continue;
        }
        var target := Resolve(doc, r);
        if target.None? {
          continue;
        }
        visited.refs := visited.refs + [r];
        resolved := target.value;
      } else if resolved == Bool(false) {
        continue;
      }
      resolved := Without(resolved, "allOf");
      base := Merge.DeepMerge(base, resolved);
      mergedAny := true;
    }
    assert branches[|branches|..] == [];
    if mergedAny {
      return Some(Without(base, "allOf"));
    }
    return None;
  }

  method TerminalValue(schema: Value, doc: Document, text: Value -> string, visited: RefStack) returns (r: Value)
    modifies visited
    ensures visited.refs == old(visited.refs)
    ensures r == Terminal(schema, doc, text, old(visited.refs))
    decreases StaticWalker.Unvisited(schema, doc, visited.refs), Rank(schema), Pending(schema), 2
  {
    var nullable := CheckNull(schema);
    if nullable {
      return Null;
    }
    ghost var before := visited.refs;
    var savedLen := |visited.refs|;
    var merged := MergeAllOf(schema, doc, visited);
    FoldingExtends(schema, doc, before);
    PrefixBack(before, visited.refs);
    if merged.Some? {
      CollapsingShrinks(schema, doc, before);
      r := TerminalValue(merged.value, doc, text, visited);
      visited.refs := visited.refs[..savedLen];
    } else {
      visited.refs := visited.refs[..savedLen];
      r := TerminalPlain(schema, doc, text, visited);
    }
  }

  lemma PrefixBack(a: seq<string>, b: seq<string>)
    requires a <= b
    ensures b[..|a|] == a
  {}

  lemma FoldingExtends(schema: Value, doc: Document, visited: seq<string>)
    ensures visited <= Folded(schema, doc, visited).visited
    ensures schema.ArrayAt("allOf") != [] ==> schema != StaticWalker.EMPTY
  {
    if schema.ArrayAt("allOf") != [] {
      CollapsingShrinks(schema, doc, visited);
    }
  }

  /** The part of the walk behind the compositions: a reference, or a type. */
  method TerminalPlain(schema: Value, doc: Document, text: Value -> string, visited: RefStack) returns (r: Value)
    requires !AllowsNull(schema)
    requires schema.ArrayAt("allOf") != [] ==> !Folded(schema, doc, visited.refs).mergedAny
    modifies visited
    ensures visited.refs == old(visited.refs)
    ensures r == Terminal(schema, doc, text, old(visited.refs))
    decreases StaticWalker.Unvisited(schema, doc, visited.refs), Rank(schema), Pending(schema), 1
  {
    if schema.HasStr("$ref") {
      var ref := schema.fields["$ref"].s;
      if ref in visited.refs {
        return Null;
      }
      var target := Resolve(doc, ref);
      if target.Some? {
        StaticWalker.EnteringVisits(schema, doc, visited.refs);
        visited.refs := visited.refs + [ref];
        r := TerminalValue(target.value, doc, text, visited);
        visited.refs := visited.refs[..|visited.refs| - 1];
        return;
      }
      return StaticWalker.EMPTY;
    }
    if schema.HasStr("type") {
      match schema.fields["type"].s {
        case "string" => r := TerminalString(schema, text);
        case "number" => r := Num(Fraction(Nearest(schema)));
        case "integer" => r := Num(Fraction(Round(Nearest(schema)) as real));
        case "boolean" => r := Bool(false);
        case "array" => r := Arr([]);
        case "object" => r := TerminalObject(schema, doc, text, visited);
        case _ => r := Null;
      }
      return;
    }
    return Null;
  }

  function NamesUpto(names: seq<string>, n: nat): set<string>
    requires n <= |names|
  {
    set k | k in names[..n]
  }

  lemma OneMoreName(names: seq<string>, i: nat)
    requires i < |names|
    ensures NamesUpto(names, i + 1) == NamesUpto(names, i) + {names[i]}
  {
    assert names[..i + 1] == names[..i] + [names[i]];
  }

  /** Every required key is present, each with the terminal value of its declared schema. */
  method TerminalObject(schema: Value, doc: Document, text: Value -> string, visited: RefStack) returns (r: Value)
    requires schema.HasStr("type")
    modifies visited
    ensures visited.refs == old(visited.refs)
    ensures r.Obj? && r.fields.Keys == (set k | k in StaticWalker.Required(schema))
    ensures forall k | k in r.fields ::
        r.fields[k] == Terminal(StaticWalker.PropertySchema(schema, k), doc, text, old(visited.refs))
    decreases StaticWalker.Unvisited(schema, doc, visited.refs), Rank(schema), Pending(schema), 0
  {
    var required := StaticWalker.Required(schema);
    var out: map<string, Value> := map[];
    for i := 0 to |required|
      invariant visited.refs == old(visited.refs)
      invariant out.Keys == NamesUpto(required, i)
      invariant forall k | k in out ::
          out[k] == Terminal(StaticWalker.PropertySchema(schema, k), doc, text, old(visited.refs))
    {
      OneMoreName(required, i);
      PropertyShrinks(schema, doc, visited.refs, required[i]);
      var element := TerminalValue(StaticWalker.PropertySchema(schema, required[i]), doc, text, visited);
      out := out[required[i] := element];
    }
    assert required[..|required|] == required;
    r := Obj(out);
  }

  // ---- what the walk guarantees ----

  /**
   * The schema whose type the walk goes by, behind collapsed `allOf`s and references; none where it ends at null
   * before.
   */
  function Landing(schema: Value, doc: Document, visited: seq<string>): Option<(Value, seq<string>)>
    decreases StaticWalker.Unvisited(schema, doc, visited), Rank(schema), Pending(schema)
  {
    if AllowsNull(schema) then None
    else if schema.ArrayAt("allOf") != [] && Folded(schema, doc, visited).mergedAny then
      CollapsingShrinks(schema, doc, visited);
      var acc := Folded(schema, doc, visited);
      assert schema != StaticWalker.EMPTY;
      Landing(Without(acc.base, "allOf"), doc, acc.visited)
    else if schema.HasStr("$ref") then
      var r := schema.fields["$ref"].s;
      if r in visited || Resolve(doc, r).None? then None
      else
        StaticWalker.EnteringVisits(schema, doc, visited);
        Landing(Resolve(doc, r).value, doc, visited + [r])
    else Some((schema, visited))
  }

  /** The walk makes of a schema what it makes of its landing, which has neither a reference nor a branch to follow. */
  lemma {:induction false} TerminalLands(schema: Value, doc: Document, text: Value -> string, visited: seq<string>)
    requires Landing(schema, doc, visited).Some?
    ensures var (landed, seen) := Landing(schema, doc, visited).value;
            && Terminal(schema, doc, text, visited) == Terminal(landed, doc, text, seen)
            && !AllowsNull(landed) && !landed.HasStr("$ref")
            && (landed.ArrayAt("allOf") != [] ==> !Folded(landed, doc, seen).mergedAny)
    decreases StaticWalker.Unvisited(schema, doc, visited), Rank(schema), Pending(schema)
  {
    if schema.ArrayAt("allOf") != [] && Folded(schema, doc, visited).mergedAny {
      CollapsingShrinks(schema, doc, visited);
      var acc := Folded(schema, doc, visited);
      assert schema != StaticWalker.EMPTY;
      TerminalLands(Without(acc.base, "allOf"), doc, text, acc.visited);
    } else if schema.HasStr("$ref") {
      StaticWalker.EnteringVisits(schema, doc, visited);
      var r := schema.fields["$ref"].s;
      TerminalLands(Resolve(doc, r).value, doc, text, visited + [r]);
    }
  }

  /**
   * Where it lands on an object schema, the value holds every key that requires and no other, however it refers to
   * itself.
   */
  lemma TerminalHasRequired(schema: Value, doc: Document, text: Value -> string, visited: seq<string>)
    requires Landing(schema, doc, visited).Some?
    requires var (landed, _) := Landing(schema, doc, visited).value;
             landed.HasStr("type") && landed.fields["type"].s == "object"
    ensures var v := Terminal(schema, doc, text, visited);
            var (landed, seen) := Landing(schema, doc, visited).value;
            && v.Obj?
            && (forall k :: k in v.fields <==> Str(k) in landed.ArrayAt("required"))
            && (forall k | k in v.fields ::
                  v.fields[k] == Terminal(StaticWalker.PropertySchema(landed, k), doc, text, seen))
  {
    TerminalLands(schema, doc, text, visited);
    var (landed, seen) := Landing(schema, doc, visited).value;
    assert forall k :: k in StaticWalker.Required(landed) <==> Str(k) in landed.ArrayAt("required");
  }

  // ---- what folding requires ----

  /**
   * The values merged for `branches`, in order: not `false`, no reference that fails to resolve or was visited before.
   */
  function Merged(doc: Document, visited: seq<string>, branches: seq<Value>): seq<Value>
    decreases |branches|
  {
    if branches == [] then []
    else
      var branch, rest := branches[0], branches[1..];
      if branch.HasStr("$ref") then
        var r := branch.fields["$ref"].s;
        if r in visited || Resolve(doc, r).None? then Merged(doc, visited, rest)
        else [Resolve(doc, r).value] + Merged(doc, visited + [r], rest)
      else if branch == Bool(false) then Merged(doc, visited, rest)
      else [branch] + Merged(doc, visited, rest)
  }

  /** What is laid on one another: the schema, then the merged values. */
  function Layers(schema: Value, doc: Document, visited: seq<string>): (layers: seq<Value>)
    ensures layers != []
  {
    [schema] + Merged(doc, visited, schema.ArrayAt("allOf"))
  }

  predicate Requires(schema: Value, key: string) {
    Str(key) in schema.ArrayAt("required")
  }

  predicate SomeRequires(layers: seq<Value>, key: string) {
    exists i | 0 <= i < |layers| :: Requires(layers[i], key)
  }

  predicate ObjectsFrom(layers: seq<Value>, i: nat) {
    forall n | i <= n < |layers| :: layers[n].Obj?
  }

  /** Some layer requires the key, and only objects are laid on top of it. */
  predicate Survives(layers: seq<Value>, key: string) {
    exists i: nat | i < |layers| :: Requires(layers[i], key) && ObjectsFrom(layers, i + 1)
  }

  /** A key required below a layer that is not an object is required again above it. */
  predicate Repeated(layers: seq<Value>, key: string) {
    forall i, n | 0 <= i < n < |layers| && !layers[n].Obj? && Requires(layers[i], key) ::
      exists j | n < j < |layers| :: Requires(layers[j], key)
  }

  lemma ObjectsFirst(x: Value, above: seq<Value>, i: nat)
    ensures ObjectsFrom([x] + above, i + 1) <==> ObjectsFrom(above, i)
    ensures ObjectsFrom([x] + above, 0) <==> x.Obj? && ObjectsFrom(above, 0)
  {
    var layers := [x] + above;
    assert layers[0] == x;
    assert forall n | 0 <= n < |above| :: above[n] == layers[n + 1];
    assert forall n | 0 < n < |layers| :: layers[n] == above[n - 1];
  }

  lemma SurvivesFirst(x: Value, above: seq<Value>, key: string)
    ensures Survives([x] + above, key) <==> (Requires(x, key) && ObjectsFrom(above, 0)) || Survives(above, key)
  {
    var layers := [x] + above;
    if Survives(layers, key) {
      var i: nat :| i < |layers| && Requires(layers[i], key) && ObjectsFrom(layers, i + 1);
      ObjectsFirst(x, above, i);
      if 0 < i {
        assert Requires(above[i - 1], key) && ObjectsFrom(above, i - 1 + 1);
      }
    }
    if Requires(x, key) && ObjectsFrom(above, 0) {
      ObjectsFirst(x, above, 0);
      assert Requires(layers[0], key) && ObjectsFrom(layers, 0 + 1);
    }
    if Survives(above, key) {
      var i: nat :| i < |above| && Requires(above[i], key) && ObjectsFrom(above, i + 1);
      ObjectsFirst(x, above, i + 1);
      assert Requires(layers[i + 1], key) && ObjectsFrom(layers, i + 1 + 1);
    }
  }

  /** The topmost layer that requires the key, if any does. */
  lemma {:induction false} Topmost(layers: seq<Value>, key: string) returns (i: nat)
    requires SomeRequires(layers, key)
    ensures i < |layers| && Requires(layers[i], key)
    ensures forall j | i < j < |layers| :: !Requires(layers[j], key)
  {
    i :| i < |layers| && Requires(layers[i], key);
    if exists j :: i < j < |layers| && Requires(layers[j], key) {
      var above := layers[i + 1..];
      var j :| i < j < |layers| && Requires(layers[j], key);
      assert above[j - i - 1] == layers[j];
      var top := Topmost(above, key);
      assert forall k | i < k < |layers| :: layers[k] == above[k - i - 1];
      i := i + 1 + top;
    }
  }

  /** A key survives exactly if it is required somewhere, and again above every layer that is not an object. */
  lemma SurvivesExactly(layers: seq<Value>, key: string)
    ensures Survives(layers, key) <==> SomeRequires(layers, key) && Repeated(layers, key)
  {
    if SomeRequires(layers, key) && Repeated(layers, key) {
      var i := Topmost(layers, key);
      assert ObjectsFrom(layers, i + 1);
    }
  }

  lemma MergeRequires(base: Value, overlay: Value, key: string)
    ensures Requires(Merge.Merge(base, Without(overlay, "allOf")), key) <==>
              (overlay.Obj? && Requires(base, key)) || Requires(overlay, key)
  {
    var over := Without(overlay, "allOf");
    WithoutRequires(overlay, key);
    if base.Obj? && overlay.Obj? {
      assert "required" in Merge.CONCAT_KEYS;
      if base.Has("required") || over.Has("required") {
        Merge.MergeField(base, over, "required");
      }
    }
  }

  lemma MergeSurvives(base: Value, x: Value, above: seq<Value>, key: string)
    ensures Survives([Merge.Merge(base, Without(x, "allOf"))] + above, key) <==> Survives([base] + ([x] + above), key)
  {
    SurvivesFirst(Merge.Merge(base, Without(x, "allOf")), above, key);
    SurvivesFirst(base, [x] + above, key);
    SurvivesFirst(x, above, key);
    ObjectsFirst(x, above, 0);
    MergeRequires(base, x, key);
  }

  /** Folding requires exactly the keys that survive, whatever is merged. */
  lemma {:induction false} FoldRequires(doc: Document, acc: Fold, branches: seq<Value>, key: string)
    ensures Requires(FoldBranches(doc, acc, branches).base, key) <==>
              Survives([acc.base] + Merged(doc, acc.visited, branches), key)
    decreases |branches|
  {
    if branches == [] {
      assert [acc.base] + [] == [acc.base];
      SurvivesFirst(acc.base, [], key);
    } else {
      var next := FoldBranch(doc, acc, branches[0]);
      FoldRequires(doc, next, branches[1..], key);
      var merged := Merged(doc, acc.visited, branches);
      var rest := Merged(doc, next.visited, branches[1..]);
      if merged != rest || next.base != acc.base {
        assert merged == [merged[0]] + rest && next.base == Merge.Merge(acc.base, Without(merged[0], "allOf"));
        MergeSurvives(acc.base, merged[0], rest, key);
      }
    }
  }

  /** It leaves an object exactly if the topmost layer is one, and merges exactly if there is something to merge. */
  lemma {:induction false} FoldShape(doc: Document, acc: Fold, branches: seq<Value>)
    ensures var merged := Merged(doc, acc.visited, branches);
            var folded := FoldBranches(doc, acc, branches);
            && (folded.base.Obj? <==> ([acc.base] + merged)[|merged|].Obj?)
            && (folded.mergedAny <==> acc.mergedAny || merged != [])
    decreases |branches|
  {
    if branches != [] {
      FoldShape(doc, FoldBranch(doc, acc, branches[0]), branches[1..]);
    }
  }

  lemma LayersRequire(schema: Value, doc: Document, visited: seq<string>, key: string)
    ensures Requires(Folded(schema, doc, visited).base, key) <==> Survives(Layers(schema, doc, visited), key)
  {
    var merged := Merged(doc, visited, schema.ArrayAt("allOf"));
    FoldRequires(doc, Fold(Without(schema, "allOf"), false, visited), schema.ArrayAt("allOf"), key);
    SurvivesFirst(schema, merged, key);
    SurvivesFirst(Without(schema, "allOf"), merged, key);
  }

  /**
   * For every schema, document and visited list: the folded schema requires exactly what the schema and its merged
   * branches require if and only if every key required below a layer that is not an object is required again above it.
   */
  lemma FoldKeepsRequired(schema: Value, doc: Document, visited: seq<string>)
    ensures var layers := Layers(schema, doc, visited);
            (forall key :: Requires(Folded(schema, doc, visited).base, key) <==> SomeRequires(layers, key)) <==>
              forall key :: Repeated(layers, key)
  {
    var layers := Layers(schema, doc, visited);
    forall key
      ensures Requires(Folded(schema, doc, visited).base, key) <==> SomeRequires(layers, key) && Repeated(layers, key)
      ensures SomeRequires(layers, key) || Repeated(layers, key)
    {
      LayersRequire(schema, doc, visited, key);
      SurvivesExactly(layers, key);
    }
  }

  /** What the folded schema goes on as, when it is an object schema with nothing left to follow. */
  predicate FoldsToObject(schema: Value, doc: Document, visited: seq<string>) {
    var next := Without(Folded(schema, doc, visited).base, "allOf");
    next.HasStr("type") && next.fields["type"].s == "object" && !next.HasStr("$ref") && !AllowsNull(next)
  }

  /**
   * So the value of a schema that is collapsed holds the keys that some layer requires and, if there are layers that
   * are not objects, some layer above the last of these; all that is required when there are only objects.
   */
  lemma CollapsedHasRequired(schema: Value, doc: Document, text: Value -> string, visited: seq<string>, key: string)
    requires !AllowsNull(schema) && Merged(doc, visited, schema.ArrayAt("allOf")) != []
    requires FoldsToObject(schema, doc, visited)
    ensures var v := Terminal(schema, doc, text, visited);
            var layers := Layers(schema, doc, visited);
            && v.Obj?
            && (key in v.fields <==> SomeRequires(layers, key) && Repeated(layers, key))
            && (ObjectsFrom(layers, 0) ==> Repeated(layers, key))
  {
    LayersRequire(schema, doc, visited, key);
    SurvivesExactly(Layers(schema, doc, visited), key);
    CollapsedLands(schema, doc, visited);
    TerminalHasRequired(schema, doc, text, visited);
    WithoutRequires(Folded(schema, doc, visited).base, key);
  }

  lemma WithoutRequires(schema: Value, key: string)
    ensures Requires(Without(schema, "allOf"), key) <==> Requires(schema, key)
  {
  }

  lemma CollapsedLands(schema: Value, doc: Document, visited: seq<string>)
    requires !AllowsNull(schema) && Merged(doc, visited, schema.ArrayAt("allOf")) != []
    requires FoldsToObject(schema, doc, visited)
    ensures var acc := Folded(schema, doc, visited);
            Landing(schema, doc, visited) == Some((Without(acc.base, "allOf"), acc.visited))
  {
    FoldShape(doc, Fold(Without(schema, "allOf"), false, visited), schema.ArrayAt("allOf"));
    CollapsingShrinks(schema, doc, visited);
    var acc := Folded(schema, doc, visited);
    var next := Without(acc.base, "allOf");
    assert schema != StaticWalker.EMPTY;
    assert next.ArrayAt("allOf") == [];
    assert Landing(next, doc, acc.visited) == Some((next, acc.visited));
  }

  /** A topmost layer that is not an object, as `true` is, makes the value null whatever the layers below it require. */
  lemma ScalarBranchForgets(schema: Value, doc: Document, text: Value -> string, visited: seq<string>)
    requires Merged(doc, visited, schema.ArrayAt("allOf")) != []
    requires var layers := Layers(schema, doc, visited); !layers[|layers| - 1].Obj?
    ensures Terminal(schema, doc, text, visited) == Null
  {
    FoldShape(doc, Fold(Without(schema, "allOf"), false, visited), schema.ArrayAt("allOf"));
    var acc := Folded(schema, doc, visited);
    assert !acc.base.Obj? && acc.mergedAny;
    CollapsingShrinks(schema, doc, visited);
    assert schema != StaticWalker.EMPTY;
    assert Terminal(acc.base, doc, text, acc.visited) == Null;
  }

  // ---- references that lead nowhere ----

  /** A schema that is only a reference. */
  predicate OnlyRefers(schema: Value, names: set<string>) {
    schema.HasStr("$ref") && schema.fields["$ref"].s in names && !AllowsNull(schema) && schema.ArrayAt("allOf") == []
  }

  /** References that lead only to one another. */
  predicate LeadNowhere(doc: Document, names: set<string>) {
    forall r | r in names :: Resolve(doc, r).Some? && OnlyRefers(Resolve(doc, r).value, names)
  }

  /** References that only lead to one another end at null, from wherever the walk enters them. */
  lemma {:induction false} SelfReference(schema: Value, doc: Document, text: Value -> string, visited: seq<string>,
                                         names: set<string>)
    requires LeadNowhere(doc, names) && OnlyRefers(schema, names)
    ensures Terminal(schema, doc, text, visited) == Null
    decreases names - StaticWalker.Entered(visited)
  {
    var r := schema.fields["$ref"].s;
    if r !in visited {
      assert r in names - StaticWalker.Entered(visited);
      assert r in visited + [r];
      SelfReference(Resolve(doc, r).value, doc, text, visited + [r], names);
    }
  }
}
