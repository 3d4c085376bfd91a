/** What collapsing `allOf` keeps of the branches and of what stands beside them. */
module StaticCollapse {
  import opened Strings
  import opened Json
  import opened RefResolver
  import opened StaticWalker
  import Merge

  /** `b` is what stands for a branch: the target of a reference that resolves, or the branch itself. */
  ghost predicate StandsFor(doc: Document, sub: Value, b: Value) {
    if sub.HasStr("$ref") && Resolve(doc, sub.fields["$ref"].s).Some?
    then Resolve(doc, sub.fields["$ref"].s) == Some(b)
    else b == sub
  }

  /** What stands for the branches, all of it objects. */
  ghost predicate ObjectBranches(doc: Document, subs: seq<Value>, bs: seq<Value>) {
    |subs| == |bs| && forall i | 0 <= i < |bs| :: StandsFor(doc, subs[i], bs[i]) && bs[i].Obj?
  }

  predicate SomeHas(bs: seq<Value>, key: string) {
    exists i | 0 <= i < |bs| :: bs[i].Has(key)
  }

  predicate OnlyHas(bs: seq<Value>, i: nat, key: string) {
    i < |bs| && bs[i].Has(key) && forall j | 0 <= j < |bs| && j != i :: !bs[j].Has(key)
  }

  predicate Demands(schema: Value, key: string) {
    Str(key) in schema.ArrayAt("required")
  }

  predicate SomeDemands(bs: seq<Value>, key: string) {
    exists i | 0 <= i < |bs| :: Demands(bs[i], key)
  }

  lemma Later(x: Value, bs: seq<Value>, key: string)
    ensures SomeHas([x] + bs, key) <==> x.Has(key) || SomeHas(bs, key)
    ensures SomeDemands([x] + bs, key) <==> Demands(x, key) || SomeDemands(bs, key)
  {
    var all := [x] + bs;
    assert all[0] == x;
    assert forall i | 0 <= i < |bs| :: all[i + 1] == bs[i];
    assert forall i | 0 < i < |all| :: all[i] == bs[i - 1];
  }

  lemma MergeDemands(base: Value, overlay: Value, key: string)
    requires base.Obj? && overlay.Obj?
    ensures Demands(Merge.Merge(base, overlay), key) <==> Demands(base, key) || Demands(overlay, key)
  {
    assert "required" in Merge.CONCAT_KEYS;
    if base.Has("required") || overlay.Has("required") {
      Merge.MergeField(base, overlay, "required");
    }
  }

  /** Merging branches that are objects has the keys of any of them, and demands what any of them demands. */
  lemma {:induction false} BranchesMerge(doc: Document, acc: Value, subs: seq<Value>, bs: seq<Value>, key: string)
    requires acc.Obj? && ObjectBranches(doc, subs, bs)
    ensures var m := MergeBranches(doc, acc, subs);
            && m.Obj?
            && (m.Has(key) <==> acc.Has(key) || SomeHas(bs, key))
            && (acc.Has(key) && !SomeHas(bs, key) ==> m.fields[key] == acc.fields[key])
            && (Demands(m, key) <==> Demands(acc, key) || SomeDemands(bs, key))
    decreases |subs|
  {
    if subs != [] {
      assert StandsFor(doc, subs[0], bs[0]);
      var next := Merge.Merge(acc, bs[0]);
      BranchesMerge(doc, next, subs[1..], bs[1..], key);
      Later(bs[0], bs[1..], key);
      assert bs == [bs[0]] + bs[1..];
      MergeDemands(acc, bs[0], key);
    }
  }

  /** A key that one branch alone has keeps that branch's value. */
  lemma {:induction false} BranchKeeps(doc: Document, acc: Value, subs: seq<Value>, bs: seq<Value>, i: nat, key: string)
    requires acc.Obj? && !acc.Has(key) && ObjectBranches(doc, subs, bs) && OnlyHas(bs, i, key)
    ensures var m := MergeBranches(doc, acc, subs);
            m.Has(key) && m.fields[key] == bs[i].fields[key]
    decreases |subs|
  {
    assert StandsFor(doc, subs[0], bs[0]);
    var next := Merge.Merge(acc, bs[0]);
    if i == 0 {
      BranchesMerge(doc, next, subs[1..], bs[1..], key);
    } else {
      BranchKeeps(doc, next, subs[1..], bs[1..], i - 1, key);
    }
  }

  /**
   * A collapsed schema has the keys of the branches and of the schema but not `allOf`; a key of no branch keeps the
   * schema's value, and a key of one branch that branch's.
   */
  lemma CollapseKeeps(doc: Document, schema: Value, bs: seq<Value>, key: string)
    requires schema.HasArr("allOf") && ObjectBranches(doc, schema.fields["allOf"].items, bs)
    ensures var c := Collapse(doc, schema);
            && c.Obj?
            && (c.Has(key) <==> key != "allOf" && (SomeHas(bs, key) || schema.Has(key)))
            && (c.Has(key) && !SomeHas(bs, key) ==> c.fields[key] == schema.fields[key])
            && forall i: nat | c.Has(key) && OnlyHas(bs, i, key) :: c.fields[key] == bs[i].fields[key]
  {
    var subs := schema.fields["allOf"].items;
    BranchesMerge(doc, EMPTY, subs, bs, key);
    forall i: nat | OnlyHas(bs, i, key)
      ensures MergeBranches(doc, EMPTY, subs).Has(key)
      ensures MergeBranches(doc, EMPTY, subs).fields[key] == bs[i].fields[key]
    {
      BranchKeeps(doc, EMPTY, subs, bs, i, key);
    }
  }

  /** It demands what the branches demand, or what the schema does where no branch writes `required`. */
  lemma CollapseDemands(doc: Document, schema: Value, bs: seq<Value>, key: string)
    requires schema.HasArr("allOf") && ObjectBranches(doc, schema.fields["allOf"].items, bs)
    ensures Demands(Collapse(doc, schema), key) <==>
              if SomeHas(bs, "required") then SomeDemands(bs, key) else Demands(schema, key)
  {
    var subs := schema.fields["allOf"].items;
    BranchesMerge(doc, EMPTY, subs, bs, key);
    BranchesMerge(doc, EMPTY, subs, bs, "required");
    CollapseKeeps(doc, schema, bs, "required");
    var m, c := MergeBranches(doc, EMPTY, subs), Collapse(doc, schema);
    if SomeHas(bs, "required") {
      assert c.fields["required"] == m.fields["required"];
      assert Demands(c, key) <==> Demands(m, key);
      assert !Demands(EMPTY, key);
    }
  }

  /** So nothing that the schema or a branch demands is lost if and only if no branch writes over what stands beside. */
  lemma CollapseDemandsAll(doc: Document, schema: Value, bs: seq<Value>)
    requires schema.HasArr("allOf") && ObjectBranches(doc, schema.fields["allOf"].items, bs)
    ensures (forall key :: Demands(Collapse(doc, schema), key) <==> Demands(schema, key) || SomeDemands(bs, key)) <==>
              (SomeHas(bs, "required") ==> forall key | Demands(schema, key) :: SomeDemands(bs, key))
  {
    forall key
      ensures Demands(Collapse(doc, schema), key) <==>
                if SomeHas(bs, "required") then SomeDemands(bs, key) else Demands(schema, key)
      ensures SomeDemands(bs, key) ==> SomeHas(bs, "required")
    {
      CollapseDemands(doc, schema, bs, key);
    }
  }

  // ---- what the walk makes of it ----

  /** Nothing in the schema takes the place of its type. */
  predicate GoesByType(schema: Value, opts: Options) {
    && schema.Obj?
    && !schema.HasStr("$ref") && !schema.Has("const") && schema.ArrayAt("enum") == []
    && (opts.useExamples ==> schema.ArrayAt("examples") == [] && !schema.Has("example"))
    && !schema.HasArr("allOf") && schema.ArrayAt("anyOf") == [] && schema.ArrayAt("oneOf") == []
    && (opts.useDefault ==> !schema.Has("default"))
  }

  /** `typ` is written as the type, or is the first name written in the list of types. */
  ghost predicate WritesType(schema: Value, typ: string) {
    || (schema.HasStr("type") && schema.fields["type"].s == typ)
    || (&& schema.HasArr("type")
        && var items := schema.fields["type"].items;
           exists i | 0 <= i < |items| :: items[i] == Str(typ) && forall j | 0 <= j < i :: !items[j].Str?)
  }

  /** Without a type, the keywords that belong to one tell it: objects first, then arrays, strings and numbers. */
  predicate Suggests(schema: Value, typ: string) {
    && !schema.Has("type")
    && match typ
       case "object" => SomeKey(schema, {"properties", "required"})
       case "array" =>
         SomeKey(schema, {"items", "prefixItems", "minItems"}) && !SomeKey(schema, {"properties", "required"})
       case "string" =>
         && SomeKey(schema, {"minLength", "maxLength", "pattern"})
         && !SomeKey(schema, {"properties", "required", "items", "prefixItems", "minItems"})
       case "number" =>
         && SomeKey(schema, {"minimum", "maximum"})
         && !SomeKey(schema, {"properties", "required", "items", "prefixItems", "minItems", "minLength", "maxLength",
                              "pattern"})
       case _ => false
  }

  predicate SomeKey(schema: Value, keys: set<string>) {
    exists k | k in keys :: schema.Has(k)
  }

  lemma {:induction false} FirstString(items: seq<Value>, i: nat)
    requires i < |items| && items[i].Str? && forall j | 0 <= j < i :: !items[j].Str?
    ensures StringsOf(items) != [] && StringsOf(items)[0] == items[i].s
    decreases i
  {
    if i > 0 {
      FirstString(items[1..], i - 1);
    }
  }

  lemma TypeIsRead(schema: Value, typ: string)
    requires WritesType(schema, typ) || Suggests(schema, typ)
    ensures TypeOf(schema) == typ
  {
    if schema.HasArr("type") {
      var items := schema.fields["type"].items;
      var i :| 0 <= i < |items| && items[i] == Str(typ) && forall j | 0 <= j < i :: !items[j].Str?;
      FirstString(items, i);
    }
  }

  /** With depth left, an object schema's value has the keys it demands and, where optionals are wanted, declares. */
  lemma ObjectHasKeys(schema: Value, doc: Document, opts: Options, visited: seq<string>, depth: nat, key: string)
    requires depth < opts.maxDepth && GoesByType(schema, opts)
    requires WritesType(schema, "object") || Suggests(schema, "object")
    ensures var v := StaticValue(schema, doc, opts, visited, depth);
            && v.Obj?
            && (key in v.fields <==>
                  Demands(schema, key) || (opts.alwaysOptionals && key in schema.ObjectAt("properties")))
  {
    TypeIsRead(schema, "object");
  }

  /**
   * With depth left, the value of an `allOf` that collapses to an object schema has every key that a branch demands,
   * or that the schema demands where no branch writes `required`, and without optionals no other.
   */
  lemma CollapsedHasKeys(schema: Value, doc: Document, opts: Options, visited: seq<string>, depth: nat,
                         bs: seq<Value>, key: string)
    requires depth + 1 < opts.maxDepth
    requires schema.HasArr("allOf") && ObjectBranches(doc, schema.fields["allOf"].items, bs)
    requires !schema.HasStr("$ref") && !schema.Has("const") && schema.ArrayAt("enum") == []
    requires opts.useExamples ==> schema.ArrayAt("examples") == [] && !schema.Has("example")
    requires var c := Collapse(doc, schema);
             GoesByType(c, opts) && (WritesType(c, "object") || Suggests(c, "object"))
    ensures var v := StaticValue(schema, doc, opts, visited, depth);
            && v.Obj?
            && (key in v.fields <==>
                  || (if SomeHas(bs, "required") then SomeDemands(bs, key) else Demands(schema, key))
                  || (opts.alwaysOptionals && key in Collapse(doc, schema).ObjectAt("properties")))
  {
    CollapseDemands(doc, schema, bs, key);
    ObjectHasKeys(Collapse(doc, schema), doc, opts, visited, depth + 1, key);
  }

  /** The smallest loss: a branch that demands anything of its own unsays what stands beside `allOf`. */
  lemma SiblingIsUnsaid(doc: Document)
    ensures var branch := Obj(map["required" := Arr([Str("id")])]);
            var schema := Obj(map["required" := Arr([Str("name")]), "allOf" := Arr([branch])]);
            Demands(schema, "name") && !Demands(Collapse(doc, schema), "name")
  {
    var branch := Obj(map["required" := Arr([Str("id")])]);
    var schema := Obj(map["required" := Arr([Str("name")]), "allOf" := Arr([branch])]);
    assert branch.Has("required") && Demands(branch, "id");
    assert schema.ArrayAt("required")[0] == Str("name");
    assert ObjectBranches(doc, schema.fields["allOf"].items, [branch]);
    assert SomeHas([branch], "required") by { assert [branch][0] == branch; }
    CollapseDemands(doc, schema, [branch], "name");
  }

  // ---- what takes the place of a type ----

  /**
   * With depth left and no reference: the constant goes before the first of the enumeration, this before the first
   * example where examples are wanted, and these before any composition; the first branch of `anyOf` goes before that
   * of `oneOf`, and both before the default where it is wanted.
   */
  lemma WrittenValues(schema: Value, doc: Document, opts: Options, visited: seq<string>, depth: nat)
    requires depth < opts.maxDepth && schema.Obj? && !schema.HasStr("$ref")
    ensures var v := StaticValue(schema, doc, opts, visited, depth);
            var constant := schema.Has("const");
            var listed := constant || schema.ArrayAt("enum") != [];
            var shown := listed || (opts.useExamples && (schema.ArrayAt("examples") != [] || schema.Has("example")));
            var composed := shown || schema.HasArr("allOf");
            && (constant ==> v == schema.fields["const"])
            && (!constant && schema.ArrayAt("enum") != [] ==> v == schema.ArrayAt("enum")[0])
            && (!listed && opts.useExamples && schema.ArrayAt("examples") != [] ==> v == schema.ArrayAt("examples")[0])
            && (!listed && opts.useExamples && schema.ArrayAt("examples") == [] && schema.Has("example") ==>
                  v == schema.fields["example"])
            && (!composed && schema.ArrayAt("anyOf") != [] ==>
                  v == StaticValue(schema.ArrayAt("anyOf")[0], doc, opts, visited, depth + 1))
            && (!composed && schema.ArrayAt("anyOf") == [] && schema.ArrayAt("oneOf") != [] ==>
                  v == StaticValue(schema.ArrayAt("oneOf")[0], doc, opts, visited, depth + 1))
            && (!composed && schema.ArrayAt("anyOf") == [] && schema.ArrayAt("oneOf") == [] && opts.useDefault &&
                schema.Has("default") ==>
                  v == schema.fields["default"])
  {
  }

  /** A reference is followed at the same depth; one met before has its empty value, one that leads nowhere is null. */
  lemma ReferencesFollowed(schema: Value, doc: Document, opts: Options, visited: seq<string>, depth: nat)
    requires depth < opts.maxDepth && schema.HasStr("$ref")
    ensures var v := StaticValue(schema, doc, opts, visited, depth); var r := schema.fields["$ref"].s;
            && (r in visited && !schema.Has("type") ==> v == Null)
            && (r !in visited && Resolve(doc, r).None? ==> v == Null)
            && (r !in visited && Resolve(doc, r).Some? ==>
                  v == StaticValue(Resolve(doc, r).value, doc, opts, visited + [r], depth))
  {
  }

  // ---- the other types ----

  /** With depth left, every other type has its placeholder. */
  lemma ScalarsArePlaceholders(schema: Value, doc: Document, opts: Options, visited: seq<string>, depth: nat,
                               typ: string)
    requires depth < opts.maxDepth && GoesByType(schema, opts)
    requires WritesType(schema, typ) || Suggests(schema, typ)
    ensures var v := StaticValue(schema, doc, opts, visited, depth);
            && (typ == "string" && !schema.HasStr("format") ==> v == Str(""))
            && (typ in {"number", "integer"} ==> v == Num(Whole(0)))
            && (typ == "boolean" ==> v == Bool(false))
            && (typ !in {"string", "number", "integer", "boolean", "array", "object"} ==> v == Null)
  {
    TypeIsRead(schema, typ);
  }

  /** Where no type is written or suggested, the value is null. */
  lemma UntypedIsNull(schema: Value, doc: Document, opts: Options, visited: seq<string>, depth: nat)
    requires depth < opts.maxDepth && GoesByType(schema, opts)
    requires forall typ :: !WritesType(schema, typ) && !Suggests(schema, typ)
    requires !schema.Has("type")
    ensures StaticValue(schema, doc, opts, visited, depth) == Null
  {
    assert forall typ | typ in {"object", "array", "string", "number"} :: !Suggests(schema, typ);
    assert !Suggests(schema, "object") && !Suggests(schema, "array");
    assert !Suggests(schema, "string") && !Suggests(schema, "number");
  }

  /** At the depth limit a written type has its empty value, whatever else the schema says. */
  lemma CutOff(schema: Value, doc: Document, opts: Options, visited: seq<string>, depth: nat)
    requires depth >= opts.maxDepth
    ensures var v := StaticValue(schema, doc, opts, visited, depth);
            if schema.HasStr("type") then
              var t := schema.fields["type"].s;
              && (t == "string" ==> v == Str("")) && (t in {"number", "integer"} ==> v == Num(Whole(0)))
              && (t == "boolean" ==> v == Bool(false)) && (t == "array" ==> v == Arr([]))
              && (t == "object" ==> v == Obj(map[]))
              && (t !in {"string", "number", "integer", "boolean", "array", "object"} ==> v == Null)
            else v == Null
  {}

  // ---- how long arrays get ----

  /** `n` is the smaller of two numbers, or the larger. */
  predicate Smaller(a: nat, b: nat, n: nat) {
    n <= a && n <= b && n in {a, b}
  }

  predicate Larger(a: nat, b: nat, n: nat) {
    a <= n && b <= n && n in {a, b}
  }

  /** The number of items wanted: the minimum, and where optionals are wanted three of them but not over the maximum. */
  ghost predicate WantsItems(schema: Value, opts: Options, minimum: nat, wanted: nat) {
    if opts.alwaysOptionals && schema.HasObj("items") then
      exists n :: Larger(minimum, 3, n)
                  && if schema.HasCount("maxItems") then Smaller(n, schema.CountAt("maxItems"), wanted) else wanted == n
    else wanted == minimum
  }

  /** The items that have schemas of their own. */
  predicate PositionsOf(schema: Value, ps: seq<Value>) {
    if schema.HasArr("prefixItems") then schema.fields["prefixItems"] == Arr(ps)
    else if schema.HasArr("items") then schema.fields["items"] == Arr(ps)
    else ps == []
  }

  /**
   * Each position is walked by its own schema and every further item by `items`, up to the wanted number; where that
   * gives null, at most up to the minimum.
   */
  lemma ArrayIsFilled(schema: Value, doc: Document, opts: Options, visited: seq<string>, depth: nat, ps: seq<Value>,
                      minimum: nat, wanted: nat)
    requires depth < opts.maxDepth && GoesByType(schema, opts)
    requires WritesType(schema, "array") || Suggests(schema, "array")
    requires PositionsOf(schema, ps) && WantsItems(schema, opts, minimum, wanted)
    requires if schema.HasCount("minItems") then minimum == schema.CountAt("minItems") else minimum == 0
    ensures var v := StaticValue(schema, doc, opts, visited, depth);
            var filler :=
              StaticValue(if schema.HasObj("items") then schema.fields["items"] else EMPTY, doc, opts, visited,
                          depth + 1);
            && v.Arr?
            && (!filler.Null? ==> Larger(|ps|, wanted, |v.items|))
            && (filler.Null? ==> exists n :: Smaller(minimum, wanted, n) && Larger(|ps|, n, |v.items|))
            && (forall i | 0 <= i < |ps| :: v.items[i] == StaticValue(ps[i], doc, opts, visited, depth + 1))
            && (forall i | |ps| <= i < |v.items| :: v.items[i] == filler)
  {
    TypeIsRead(schema, "array");
    assert PrefixOf(schema) == ps;
    assert MinItems(schema) == minimum;
    assert Target(schema, opts) == wanted;
    var n := if minimum < wanted then minimum else wanted;
    assert Smaller(minimum, wanted, n);
  }
}
