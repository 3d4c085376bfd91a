/** `walk_static`: the deterministic walk that turns a schema into a minimal value. */
module StaticWalker {
  import opened Strings
  import opened Json
  import opened Keys
  import opened RefResolver
  import Merge

  datatype Options = Options(maxDepth: nat, useExamples: bool, useDefault: bool, alwaysOptionals: bool)

  const ZERO: Value := Num(Whole(0))
  const EMPTY: Value := Obj(map[])

  /** Fixed placeholders for the string formats that have one. */
  function CanonicalFormat(format: string): Option<string> {
    if format in {"date-time", "datetime", "iso-date-time"} then Some("2020-01-01T00:00:00Z")
    else if format in {"date", "iso-date", "full-date"} then Some("2020-01-01")
    else if format in {"time", "partial-time"} then Some("00:00:00Z")
    else if format == "duration" then Some("P1D")
    else if format in {"uuid", "uuid1", "uuid3", "uuid4", "uuid5", "guid"}
    then Some("00000000-0000-4000-8000-000000000000")
    else if format in {"email", "idn-email"} then Some("user@example.com")
    else if format in {"uri", "url", "uri-reference", "iri", "iri-reference"} then Some("https://example.com")
    else if format == "uri-template" then Some("https://example.com/{id}")
    else if format in {"hostname", "idn-hostname"} then Some("example.com")
    else if format == "ipv4" then Some("192.0.2.0")
    else if format == "ipv6" then Some("2001:db8::")
    else if format == "json-pointer" then Some("/example")
    else if format == "relative-json-pointer" then Some("0")
    else if format == "byte" then Some("ZXhhbXBsZQ==")
    else if format == "base64url" then Some("ZXhhbXBsZQ")
    else if format == "binary" then Some("binary")
    else if format == "password" then Some("password")
    else if format == "hex-color" then Some("#000000")
    else None
  }

  function StaticString(schema: Value): Value {
    if schema.HasStr("format") && CanonicalFormat(schema.fields["format"].s).Some?
    then Str(CanonicalFormat(schema.fields["format"].s).value)
    else Str("")
  }

  function StaticTerminal(schema: Value): Value {
    if !schema.HasStr("type") then Null
    else
      match schema.fields["type"].s
      case "string" => Str("")
      case "number" => ZERO
      case "integer" => ZERO
      case "boolean" => Bool(false)
      case "array" => Arr([])
      case "object" => EMPTY
      case _ => Null
  }

  function InferType(schema: Value): string {
    if schema.Has("properties") || schema.Has("required") then "object"
    else if schema.Has("items") || schema.Has("prefixItems") || schema.Has("minItems") then "array"
    else if schema.Has("minLength") || schema.Has("maxLength") || schema.Has("pattern") then "string"
    else if schema.Has("minimum") || schema.Has("maximum") then "number"
    else ""
  }

  function TypeOf(schema: Value): string {
    if schema.HasStr("type") then schema.fields["type"].s
    else if schema.HasArr("type") then
      var names := StringsOf(schema.fields["type"].items);
      if names == [] then "" else names[0]
    else InferType(schema)
  }

  /** A branch of `allOf` is replaced by its target when it is a reference that resolves. */
  function Branch(doc: Document, sub: Value): Value {
    if sub.HasStr("$ref") && Resolve(doc, sub.fields["$ref"].s).Some?
    then Resolve(doc, sub.fields["$ref"].s).value
    else sub
  }

  function MergeBranches(doc: Document, acc: Value, branches: seq<Value>): Value
    decreases |branches|
  {
    if branches == [] then acc
    else MergeBranches(doc, Merge.Merge(acc, Branch(doc, branches[0])), branches[1..])
  }

  /** The siblings of `allOf` fill the keys that no branch declared. */
  function Collapse(doc: Document, schema: Value): Value
    requires schema.HasArr("allOf")
  {
    var merged := MergeBranches(doc, EMPTY, schema.fields["allOf"].items);
    if merged.Obj? then Obj((schema.fields + merged.fields) - {"allOf"}) else merged
  }

  // ---- the measure: references not entered yet ----

  ghost function Entered(visited: seq<string>): set<string> {
    set r | r in visited
  }

  ghost function Unvisited(schema: Value, doc: Document, visited: seq<string>): nat {
    |Refs(schema) + DocRefs(doc) - Entered(visited)|
  }

  lemma EnteringVisits(schema: Value, doc: Document, visited: seq<string>)
    requires schema.HasStr("$ref") && schema.fields["$ref"].s !in visited
    requires Resolve(doc, schema.fields["$ref"].s).Some?
    ensures var r := schema.fields["$ref"].s;
            Unvisited(Resolve(doc, r).value, doc, visited + [r]) < Unvisited(schema, doc, visited)
  {
    var r := schema.fields["$ref"].s;
    ResolveAddsNoReference(doc, r);
    assert r in Refs(schema);
    SmallerSet(Refs(Resolve(doc, r).value) + DocRefs(doc) - Entered(visited + [r]),
               Refs(schema) + DocRefs(doc) - Entered(visited), r);
  }

  lemma SmallerSet<T>(a: set<T>, b: set<T>, x: T)
    requires a <= b && x in b && x !in a
    ensures |a| < |b|
  {
    assert a <= b - {x};
    SubsetSize(a, b - {x});
  }

  lemma {:induction false} SubsetSize<T>(a: set<T>, b: set<T>)
    requires a <= b
    ensures |a| <= |b|
  {
    if a != {} {
      var x :| x in a;
      SubsetSize(a - {x}, b - {x});
    }
  }

  // ---- the walk as a function ----

  function StaticValue(schema: Value, doc: Document, opts: Options, visited: seq<string>, depth: nat): Value
    decreases if depth < opts.maxDepth then opts.maxDepth - depth else 0, Unvisited(schema, doc, visited), 1
  {
    if depth >= opts.maxDepth then StaticTerminal(schema)
    else if !schema.Obj? then Null
    else if schema.HasStr("$ref") then
      var r := schema.fields["$ref"].s;
      if r in visited then StaticTerminal(schema)
      else if Resolve(doc, r).None? then Null
      else
        EnteringVisits(schema, doc, visited);
        StaticValue(Resolve(doc, r).value, doc, opts, visited + [r], depth)
    else if schema.Has("const") then schema.fields["const"]
    else if schema.ArrayAt("enum") != [] then schema.ArrayAt("enum")[0]
    else if opts.useExamples && schema.ArrayAt("examples") != [] then schema.ArrayAt("examples")[0]
    else if opts.useExamples && schema.Has("example") then schema.fields["example"]
    else if schema.HasArr("allOf") then StaticValue(Collapse(doc, schema), doc, opts, visited, depth + 1)
    else if schema.ArrayAt("anyOf") != [] then StaticValue(schema.ArrayAt("anyOf")[0], doc, opts, visited, depth + 1)
    else if schema.ArrayAt("oneOf") != [] then StaticValue(schema.ArrayAt("oneOf")[0], doc, opts, visited, depth + 1)
    else if opts.useDefault && schema.Has("default") then schema.fields["default"]
    else
      match TypeOf(schema)
      case "string" => StaticString(schema)
      case "number" => ZERO
      case "integer" => ZERO
      case "boolean" => Bool(false)
      case "array" => StaticArray(schema, doc, opts, visited, depth)
      case "object" => StaticObject(schema, doc, opts, visited, depth)
      case _ => Null
  }

  function PrefixOf(schema: Value): seq<Value> {
    if schema.HasArr("prefixItems") then schema.fields["prefixItems"].items else schema.ArrayAt("items")
  }

  function ItemSchema(schema: Value): Value {
    if schema.HasObj("items") then schema.fields["items"] else EMPTY
  }

  function MinItems(schema: Value): nat {
    if schema.HasCount("minItems") then schema.CountAt("minItems") else 0
  }

  /** How many items the walk aims for: the minimum, or three when optional parts are wanted. */
  function Target(schema: Value, opts: Options): nat {
    if opts.alwaysOptionals && schema.HasObj("items") then
      var wanted := if MinItems(schema) < 3 then 3 else MinItems(schema);
      if schema.HasCount("maxItems") && schema.CountAt("maxItems") < wanted then schema.CountAt("maxItems") else wanted
    else MinItems(schema)
  }

  /** A null filler stops at the minimum. */
  function Padding(have: nat, filler: Value, schema: Value, opts: Options): nat {
    var goal :=
      if filler.Null? && MinItems(schema) < Target(schema, opts) then MinItems(schema) else Target(schema, opts);
    if have < goal then goal - have else 0
  }

  function StaticArray(schema: Value, doc: Document, opts: Options, visited: seq<string>, depth: nat): Value
    requires depth < opts.maxDepth
    decreases opts.maxDepth - depth, Unvisited(schema, doc, visited), 0
  {
    var prefix := seq(|PrefixOf(schema)|, i requires 0 <= i < |PrefixOf(schema)| =>
                        StaticValue(PrefixOf(schema)[i], doc, opts, visited, depth + 1));
    var filler := StaticValue(ItemSchema(schema), doc, opts, visited, depth + 1);
    Arr(prefix + seq(Padding(|prefix|, filler, schema, opts), _ => filler))
  }

  function Required(schema: Value): seq<string> {
    StringsOf(schema.ArrayAt("required"))
  }

  function PropertySchema(schema: Value, key: string): Value {
    var props := schema.ObjectAt("properties");
    if key in props then props[key] else EMPTY
  }

  /** The properties a value gets: every required one, and with `alwaysOptionals` every declared one. */
  function Chosen(schema: Value, opts: Options): set<string> {
    (set k | k in Required(schema)) + (if opts.alwaysOptionals then schema.ObjectAt("properties").Keys else {})
  }

  function StaticObject(schema: Value, doc: Document, opts: Options, visited: seq<string>, depth: nat): Value
    requires depth < opts.maxDepth
    decreases opts.maxDepth - depth, Unvisited(schema, doc, visited), 0
  {
    Obj(map k | k in Chosen(schema, opts) ::
          StaticValue(PropertySchema(schema, k), doc, opts, visited, depth + 1))
  }

  // ---- the walk as the source runs it ----

  method MergeAllOf(doc: Document, schema: Value) returns (merged: Value)
    requires schema.HasArr("allOf")
    ensures merged == Collapse(doc, schema)
  {
    var branches := schema.fields["allOf"].items;
    merged := EMPTY;
    assert branches[0..] == branches;
    for i := 0 to |branches|
      invariant MergeBranches(doc, merged, branches[i..]) == MergeBranches(doc, EMPTY, branches)
    {
      assert branches[i..][1..] == branches[i + 1..];
      var resolved := branches[i];
      if resolved.HasStr("$ref") {
        var target := Resolve(doc, resolved.fields["$ref"].s);
        if target.Some? {
          resolved := target.value;
        }
      }
      merged := Merge.DeepMerge(merged, resolved);
    }
    assert branches[|branches|..] == [];
    if merged.Obj? {
      var m := merged.fields;
      var todo := schema.fields.Keys;
      while todo != {}
        invariant todo <= schema.fields.Keys
        invariant m == merged.fields +
                       (map k | k in schema.fields && k !in todo && k != "allOf" && k !in merged.fields ::
                          schema.fields[k])
        decreases todo
      {
        var k :| k in todo;
        if k != "allOf" && k !in m {
          m := m[k := schema.fields[k]];
        }
        todo := todo - {k};
      }
      m := m - {"allOf"};
      assert m == (schema.fields + merged.fields) - {"allOf"};
      merged := Obj(m);
    }
  }

  method WalkStatic(schema: Value, doc: Document, opts: Options, visited: RefStack, depth: nat) returns (r: Value)
    modifies visited
    ensures visited.refs == old(visited.refs)
    ensures r == StaticValue(schema, doc, opts, old(visited.refs), depth)
    decreases if depth < opts.maxDepth then opts.maxDepth - depth else 0, Unvisited(schema, doc, visited.refs), 1
  {
    if depth >= opts.maxDepth {
      return StaticTerminal(schema);
    }
    if !schema.Obj? {
      return Null;
    }
    if schema.HasStr("$ref") {
      var ref := schema.fields["$ref"].s;
      if ref in visited.refs {
        return StaticTerminal(schema);
      }
      var target := Resolve(doc, ref);
      if target.Some? {
        EnteringVisits(schema, doc, visited.refs);
        visited.refs := visited.refs + [ref];
        r := WalkStatic(target.value, doc, opts, visited, depth);
        visited.refs := visited.refs[..|visited.refs| - 1];
        return;
      }
      return Null;
    }
    if schema.Has("const") {
      return schema.fields["const"];
    }
    if schema.ArrayAt("enum") != [] {
      return schema.ArrayAt("enum")[0];
    }
    if opts.useExamples {
      if schema.ArrayAt("examples") != [] {
        return schema.ArrayAt("examples")[0];
      }
      if schema.Has("example") {
        return schema.fields["example"];
      }
    }
    if schema.HasArr("allOf") {
      var merged := MergeAllOf(doc, schema);
      r := WalkStatic(merged, doc, opts, visited, depth + 1);
      return;
    }
    if schema.ArrayAt("anyOf") != [] {
      r := WalkStatic(schema.ArrayAt("anyOf")[0], doc, opts, visited, depth + 1);
      return;
    }
    if schema.ArrayAt("oneOf") != [] {
      r := WalkStatic(schema.ArrayAt("oneOf")[0], doc, opts, visited, depth + 1);
      return;
    }
    if opts.useDefault && schema.Has("default") {
      return schema.fields["default"];
    }
    match TypeOf(schema) {
      case "string" => r := StaticString(schema);
      case "number" => r := ZERO;
      case "integer" => r := ZERO;
      case "boolean" => r := Bool(false);
      case "array" => r := WalkArray(schema, doc, opts, visited, depth);
      case "object" => r := WalkObject(schema, doc, opts, visited, depth);
      case _ => r := Null;
    }
  }

  method WalkArray(schema: Value, doc: Document, opts: Options, visited: RefStack, depth: nat) returns (r: Value)
    requires depth < opts.maxDepth
    modifies visited
    ensures visited.refs == old(visited.refs)
    ensures r == StaticArray(schema, doc, opts, old(visited.refs), depth)
    decreases opts.maxDepth - depth, Unvisited(schema, doc, visited.refs), 0
  {
    var out := WalkPrefix(PrefixOf(schema), doc, opts, visited, depth + 1);
    out := PadItems(out, schema, doc, opts, visited, depth + 1);
    r := Arr(out);
  }

  method WalkPrefix(prefix: seq<Value>, doc: Document, opts: Options, visited: RefStack, depth: nat)
    returns (out: seq<Value>)
    requires 0 < depth <= opts.maxDepth
    modifies visited
    ensures visited.refs == old(visited.refs)
    ensures out == seq(|prefix|,
                       i requires 0 <= i < |prefix| => StaticValue(prefix[i], doc, opts, old(visited.refs), depth))
    decreases opts.maxDepth - depth
  {
    out := [];
    for i := 0 to |prefix|
      invariant visited.refs == old(visited.refs)
      invariant |out| == i
      invariant forall j | 0 <= j < i :: out[j] == StaticValue(prefix[j], doc, opts, old(visited.refs), depth)
    {
      var element := WalkStatic(prefix[i], doc, opts, visited, depth);
      out := out + [element];
    }
  }

  method PadItems(head: seq<Value>, schema: Value, doc: Document, opts: Options, visited: RefStack, depth: nat)
    returns (out: seq<Value>)
    requires 0 < depth <= opts.maxDepth
    modifies visited
    ensures visited.refs == old(visited.refs)
    ensures var filler := StaticValue(ItemSchema(schema), doc, opts, old(visited.refs), depth);
            out == head + seq(Padding(|head|, filler, schema, opts), _ => filler)
    decreases opts.maxDepth - depth
  {
    ghost var filler := StaticValue(ItemSchema(schema), doc, opts, visited.refs, depth);
    ghost var padding := Padding(|head|, filler, schema, opts);
    out := head;
    var target := Target(schema, opts);
    while |out| < target
      invariant visited.refs == old(visited.refs)
      invariant |head| <= |out| <= |head| + padding
      invariant out == head + seq(|out| - |head|, _ => filler)
      decreases target - |out|
    {
      var element := WalkStatic(ItemSchema(schema), doc, opts, visited, depth);
      if element.Null? && |out| >= MinItems(schema) {
        break;
      }
      out := out + [element];
    }
  }

  method WalkObject(schema: Value, doc: Document, opts: Options, visited: RefStack, depth: nat) returns (r: Value)
    requires depth < opts.maxDepth
    modifies visited
    ensures visited.refs == old(visited.refs)
    ensures r == StaticObject(schema, doc, opts, old(visited.refs), depth)
    decreases opts.maxDepth - depth, Unvisited(schema, doc, visited.refs), 0
  {
    var out := WalkDeclared(schema, doc, opts, visited, depth + 1);
    out := WalkMissing(out, schema, doc, opts, visited, depth + 1);
    r := Obj(out);
  }

  ghost predicate Filled(out: map<string, Value>, schema: Value, doc: Document, opts: Options, visited: seq<string>,
                         depth: nat) {
    forall k | k in out :: out[k] == StaticValue(PropertySchema(schema, k), doc, opts, visited, depth)
  }

  method WalkDeclared(schema: Value, doc: Document, opts: Options, visited: RefStack, depth: nat)
    returns (out: map<string, Value>)
    requires 0 < depth <= opts.maxDepth
    modifies visited
    ensures visited.refs == old(visited.refs)
    ensures out.Keys == schema.ObjectAt("properties").Keys * Chosen(schema, opts)
    ensures Filled(out, schema, doc, opts, old(visited.refs), depth)
    decreases opts.maxDepth - depth
  {
    var required := Required(schema);
    var properties := schema.ObjectAt("properties");
    ghost var chosen := Chosen(schema, opts);
    out := map[];
    var todo := properties.Keys;
    while todo != {}
      invariant visited.refs == old(visited.refs)
      invariant todo <= properties.Keys
      invariant out.Keys == (properties.Keys - todo) * chosen
      invariant Filled(out, schema, doc, opts, old(visited.refs), depth)
      decreases todo
    {
      var key, rest := TakeFirst(todo);
      assert key in chosen <==> key in required || opts.alwaysOptionals;
      if key in required || opts.alwaysOptionals {
        var element := WalkStatic(properties[key], doc, opts, visited, depth);
        out := out[key := element];
      }
      todo := rest;
    }
  }

  method WalkMissing(declared: map<string, Value>, schema: Value, doc: Document, opts: Options, visited: RefStack,
                     depth: nat)
    returns (out: map<string, Value>)
    requires 0 < depth <= opts.maxDepth
    requires declared.Keys == schema.ObjectAt("properties").Keys * Chosen(schema, opts)
    requires Filled(declared, schema, doc, opts, visited.refs, depth)
    modifies visited
    ensures visited.refs == old(visited.refs)
    ensures out.Keys == Chosen(schema, opts)
    ensures Filled(out, schema, doc, opts, old(visited.refs), depth)
    decreases opts.maxDepth - depth
  {
    var required := Required(schema);
    out := declared;
    for i := 0 to |required|
      invariant visited.refs == old(visited.refs)
      invariant out.Keys == declared.Keys + (set k | k in required[..i])
      invariant Filled(out, schema, doc, opts, old(visited.refs), depth)
    {
      assert required[..i + 1] == required[..i] + [required[i]];
      assert required[i] in Chosen(schema, opts);
      if required[i] !in out {
        var element := WalkStatic(EMPTY, doc, opts, visited, depth);
        out := out[required[i] := element];
      }
    }
    assert required[..|required|] == required;
  }
}
