/** What the static walk makes of a schema is accepted by the validator for that schema. */
module StaticMeetsValidator {
  import opened Strings
  import opened Json
  import opened Schemas
  import opened SchemaText
  import opened RefResolver
  import opened StaticWalker
  import Pointers
  import Validator
  import Acceptance

  // ---- the schemas covered ----

  /** An enumeration starts with a value that fits; without one, the fixed placeholder fits. */
  predicate LeafOk(k: Kind, nullable: bool) {
    match k
    case StringType(texts, minLength, maxLength, pattern, format) =>
      pattern.None? && format.None? &&
      if texts != [] then (texts[0].None? && nullable) || (texts[0].Some? && minLength.None? && maxLength.None?)
      else minLength.Some? ==> minLength.value == 0
    case IntegerType(int32, ints, low, high, above, below, multiple) =>
      if ints != [] then
        (ints[0].None? && nullable) ||
        (ints[0].Some? && Validator.I64_MIN <= ints[0].value <= Validator.I64_MAX &&
         !int32 && low.None? && high.None? && multiple.None?)
      else Acceptance.WithinInts(0, low, high, above, below)
    case NumberType(reals, low, high, above, below, multiple) =>
      if reals != [] then (reals[0].None? && nullable) || (reals[0].Some? && low.None? && high.None? && multiple.None?)
      else Acceptance.WithinReals(0.0, low, high, above, below)
    case BooleanType(bools) => bools != [] ==> bools[0].Some? || nullable
    case _ => false
  }

  predicate Undeclared(additional: Additional) {
    additional == Unspecified || additional == Permitted(true)
  }

  predicate DistinctNames(properties: seq<Property>) {
    forall i, j | 0 <= i < j < |properties| :: properties[i].name != properties[j].name
  }

  /**
   * The schemas whose static value is accepted, when `room` levels of nesting are left and the references
   * in `entered` are being followed: plain scalars, objects whose required properties are declared (or
   * undeclared ones allowed), arrays with room between their bounds, and `anyOf`; no reference is followed
   * inside itself.
   */
  predicate Walkable(spec: Spec, r: SchemaRef, room: nat, entered: set<string>)
    decreases room, 1
  {
    match r
    case Item(schema) => SchemaWalkable(spec, schema, room, entered)
    case Reference(target) =>
      ResolveSchema(spec, r).Some? && target !in entered && '/' !in target[|COMPONENT_PREFIX|..] &&
      '~' !in target[|COMPONENT_PREFIX|..] &&
      SchemaWalkable(spec, ResolveSchema(spec, r).value, room, entered + {target})
  }

  predicate SchemaWalkable(spec: Spec, schema: Schema, room: nat, entered: set<string>)
    decreases room, 0
  {
    room > 0 &&
    match schema.kind
    case ObjectType(required, properties, additional) =>
      DistinctNames(properties) &&
      (forall name | name in required :: Undeclared(additional) || Validator.Declares(properties, name)) &&
      (forall i | 0 <= i < |properties| :: Walkable(spec, properties[i].schema, room - 1, entered))
    case ArrayType(items, minItems, maxItems, unique) =>
      !unique && (minItems.Some? && maxItems.Some? ==> minItems.value <= maxItems.value) &&
      (items.Some? ==> Walkable(spec, items.value, room - 1, entered))
    case AnyOf(branches) => branches != [] && Walkable(spec, branches[0], room - 1, entered)
    case _ => LeafOk(schema.kind, schema.nullable)
  }

  // ---- what the walk reads in the text of a schema ----

  /** The keywords that take over the walk. */
  predicate Takeover(key: string) {
    key == "$ref" || key == "const" || key == "examples" || key == "example" || key == "allOf" || key == "anyOf" ||
    key == "oneOf" || key == "default" || key == "prefixItems"
  }

  /** What may stand beside the keywords of a kind; the walk reads none of it. */
  predicate Beside(key: string) {
    key == "nullable" || key == "discriminator" || key == "components" || key == "$defs"
  }

  predicate AllBeside(extra: seq<Entry>) {
    forall i | 0 <= i < |extra| :: Beside(extra[i].key)
  }

  function Text(k: Kind, extra: seq<Entry>): Value {
    Obj(Fields(Entries(k) + extra))
  }

  predicate Quiet(entries: seq<Entry>) {
    forall i | 0 <= i < |entries| :: !Takeover(entries[i].key)
  }

  lemma QuietText(entries: seq<Entry>, extra: seq<Entry>, key: string)
    requires AllBeside(extra) && Quiet(entries) && Takeover(key)
    ensures key !in Fields(entries + extra)
  {
    FieldsKeys(entries + extra, key);
    assert Quiet(extra);
  }

  lemma KindIsQuiet(k: Kind)
    requires k.ObjectType? || k.ArrayType? || k.StringType? || k.IntegerType? || k.NumberType? || k.BooleanType?
    ensures Quiet(Entries(k))
  {}

  /** The type and the enumeration, read back. */
  lemma TypedText(name: string, values: seq<Value>, own: seq<Entry>, extra: seq<Entry>)
    requires AllBeside(extra) && forall i | 0 <= i < |own| :: own[i].key != "enum"
    ensures var v := Obj(Fields(Typed(name, values, own) + extra));
      v.HasStr("type") && v.fields["type"].s == name && v.ArrayAt("enum") == values
  {
    var entries := Typed(name, values, own) + extra;
    FieldsAt(entries, 0);
    if values != [] {
      FieldsAt(entries, 1);
    } else {
      FieldsKeys(entries, "enum");
    }
  }

  /** With none of the takeover keywords, the walk goes by the enumeration and the type. */
  lemma QuietWalk(v: Value, doc: Document, opts: Options, visited: seq<string>, depth: nat)
    requires v.Obj? && (forall key | Takeover(key) :: key !in v.fields) && depth < opts.maxDepth && v.HasStr("type")
    ensures StaticValue(v, doc, opts, visited, depth) ==
      if v.ArrayAt("enum") != [] then v.ArrayAt("enum")[0]
      else
        match v.fields["type"].s
        case "string" => StaticString(v)
        case "number" => ZERO
        case "integer" => ZERO
        case "boolean" => Bool(false)
        case "array" => StaticArray(v, doc, opts, visited, depth)
        case "object" => StaticObject(v, doc, opts, visited, depth)
        case _ => Null
  {
    assert Takeover("$ref") && Takeover("const") && Takeover("examples") && Takeover("example") && Takeover("allOf");
    assert Takeover("anyOf") && Takeover("oneOf") && Takeover("default");
  }

  lemma KindWalk(k: Kind, extra: seq<Entry>, doc: Document, opts: Options, visited: seq<string>, depth: nat)
    requires k.ObjectType? || k.ArrayType? || k.StringType? || k.IntegerType? || k.NumberType? || k.BooleanType?
    requires AllBeside(extra) && depth < opts.maxDepth
    ensures var v := Text(k, extra); var r := StaticValue(v, doc, opts, visited, depth);
      match k
      case StringType(texts, _, _, _, _) => r == if texts != [] then SchemaText.Text(texts[0]) else StaticString(v)
      case IntegerType(_, ints, _, _, _, _, _) => r == if ints != [] then Int(ints[0]) else ZERO
      case NumberType(reals, _, _, _, _, _) => r == if reals != [] then Real(reals[0]) else ZERO
      case BooleanType(bools) => r == if bools != [] then Truth(bools[0]) else Bool(false)
      case ArrayType(_, _, _, _) => r == StaticArray(v, doc, opts, visited, depth)
      case ObjectType(_, _, _) => r == StaticObject(v, doc, opts, visited, depth)
      case _ => true
  {
    var v := Text(k, extra);
    KindIsQuiet(k);
    forall key | Takeover(key)
      ensures key !in v.fields
    {
      QuietText(Entries(k), extra, key);
    }
    var own := Entries(k)[2..];
    var values := Entries(k)[1].value.items;
    assert Entries(k) == Typed(Entries(k)[0].value.s, values, own);
    TypedText(Entries(k)[0].value.s, values, own, extra);
    QuietWalk(v, doc, opts, visited, depth);
  }

  // ---- leaves ----

  lemma NoFormat(k: Kind, extra: seq<Entry>)
    requires k.StringType? && k.format.None? && AllBeside(extra)
    ensures StaticString(Text(k, extra)) == Str("")
  {
    FieldsKeys(Entries(k) + extra, "format");
  }

  lemma PlaceholderFits(spec: Spec, k: Kind)
    requires LeafOk(k, false)
    ensures k.StringType? && k.texts == [] ==> Acceptance.StringFits(spec, k, Str(""))
    ensures k.IntegerType? && k.ints == [] ==> Acceptance.IntegerFits(k, ZERO)
    ensures k.NumberType? && k.reals == [] ==> Acceptance.NumberFits(k, ZERO)
  {
    if k.NumberType? && k.realMultiple.Some? && k.realMultiple.value != 0.0 {
      assert 0.0 / k.realMultiple.value == 0.0;
    }
  }

  lemma ListedFits(spec: Spec, k: Kind)
    requires LeafOk(k, false)
    ensures k.StringType? && k.texts != [] ==> Acceptance.StringFits(spec, k, SchemaText.Text(k.texts[0]))
    ensures k.IntegerType? && k.ints != [] ==> Acceptance.IntegerFits(k, Int(k.ints[0]))
    ensures k.NumberType? && k.reals != [] ==> Acceptance.NumberFits(k, Real(k.reals[0]))
    ensures k.BooleanType? && k.bools != [] ==> Acceptance.BooleanFits(k, Truth(k.bools[0]))
  {
    if k.NumberType? && k.reals != [] {
      assert Validator.FloatEq(k.reals[0].value, k.reals[0].value);
    }
  }

  lemma LeafAccepted(spec: Spec, schema: Schema, extra: seq<Entry>, doc: Document, opts: Options, visited: seq<string>,
                     depth: nat)
    requires Founded(spec) && AllBeside(extra) && depth < opts.maxDepth && LeafOk(schema.kind, schema.nullable)
    ensures Acceptance.Accepts(spec, schema, StaticValue(Text(schema.kind, extra), doc, opts, visited, depth), {})
  {
    var k := schema.kind;
    KindWalk(k, extra, doc, opts, visited, depth);
    if LeafOk(k, false) {
      PlaceholderFits(spec, k);
      ListedFits(spec, k);
      if k.StringType? {
        NoFormat(k, extra);
      }
    }
  }

  // ---- objects ----

  lemma {:induction false} PropertiesRead(properties: seq<Property>)
    ensures forall key :: key in PropertiesText(properties) <==> Validator.Declares(properties, key)
    ensures DistinctNames(properties) ==>
              forall i | 0 <= i < |properties| ::
                properties[i].name in PropertiesText(properties) &&
                PropertiesText(properties)[properties[i].name] == RefText(properties[i].schema)
  {
    if properties != [] {
      var rest := properties[..|properties| - 1];
      var last := properties[|properties| - 1];
      PropertiesRead(rest);
      forall key
        ensures key in PropertiesText(properties) <==> Validator.Declares(properties, key)
      {
        assert Validator.Declares(properties, key) <==> Validator.Declares(rest, key) || key == last.name;
      }
      if DistinctNames(properties) {
        assert DistinctNames(rest);
        forall i | 0 <= i < |properties|
          ensures properties[i].name in PropertiesText(properties) &&
                  PropertiesText(properties)[properties[i].name] == RefText(properties[i].schema)
        {
          if i < |rest| {
            assert rest[i] == properties[i];
            assert properties[i].name != last.name;
          }
        }
      }
    }
  }

  lemma PropertiesAt(k: Kind, extra: seq<Entry>)
    requires k.ObjectType? && AllBeside(extra)
    ensures Text(k, extra).ObjectAt("properties") == PropertiesText(k.properties)
  {
    var entries := Entries(k) + extra;
    if k.properties != [] {
      FieldsAt(entries, 3);
    } else {
      FieldsKeys(entries, "properties");
    }
  }

  lemma RequiredAt(k: Kind, extra: seq<Entry>)
    requires k.ObjectType? && AllBeside(extra)
    ensures Text(k, extra).ArrayAt("required") == SchemaText.Names(k.required)
  {
    var entries := Entries(k) + extra;
    if k.required != [] {
      FieldsAt(entries, 2);
    } else {
      FieldsKeys(entries, "required");
    }
  }

  lemma ObjectRead(k: Kind, extra: seq<Entry>)
    requires k.ObjectType? && AllBeside(extra)
    ensures var v := Text(k, extra);
      && v.ObjectAt("properties") == PropertiesText(k.properties)
      && forall name :: name in Required(v) <==> name in k.required
  {
    PropertiesAt(k, extra);
    RequiredAt(k, extra);
    forall name
      ensures Str(name) in SchemaText.Names(k.required) <==> name in k.required
    {
      if name in k.required {
        var i :| 0 <= i < |k.required| && k.required[i] == name;
        assert SchemaText.Names(k.required)[i] == Str(name);
      }
    }
  }

  // ---- arrays ----

  lemma ItemsRead(k: Kind, extra: seq<Entry>)
    requires k.ArrayType? && AllBeside(extra)
    ensures PrefixOf(Text(k, extra)) == []
    ensures Text(k, extra).HasObj("items") == k.items.Some?
    ensures ItemSchema(Text(k, extra)) == if k.items.Some? then RefText(k.items.value) else EMPTY
  {
    var entries := Entries(k) + extra;
    KindIsQuiet(k);
    assert Takeover("prefixItems");
    QuietText(Entries(k), extra, "prefixItems");
    if k.items.Some? {
      FieldsAt(entries, 2);
      assert Entries(k)[2] == Entry("items", true, OptionText(k.items));
      assert OptionText(k.items) == RefText(k.items.value);
    } else {
      FieldsKeys(entries, "items");
    }
  }

  lemma CountsRead(k: Kind, extra: seq<Entry>)
    requires k.ArrayType? && AllBeside(extra)
    ensures MinItems(Text(k, extra)) == (if k.minItems.Some? then k.minItems.value else 0)
    ensures Text(k, extra).HasCount("maxItems") == k.maxItems.Some?
    ensures k.maxItems.Some? ==> Text(k, extra).CountAt("maxItems") == k.maxItems.value
  {
    var entries := Entries(k) + extra;
    if k.minItems.Some? {
      FieldsAt(entries, 3);
    } else {
      FieldsKeys(entries, "minItems");
    }
    if k.maxItems.Some? {
      FieldsAt(entries, 4);
    } else {
      FieldsKeys(entries, "maxItems");
    }
  }

  lemma PaddingFits(k: Kind, extra: seq<Entry>, filler: Value, opts: Options)
    requires k.ArrayType? && AllBeside(extra)
    requires k.minItems.Some? && k.maxItems.Some? ==> k.minItems.value <= k.maxItems.value
    ensures var n := Padding(0, filler, Text(k, extra), opts);
      (k.minItems.Some? ==> k.minItems.value <= n) && (k.maxItems.Some? ==> n <= k.maxItems.value)
  {
    CountsRead(k, extra);
  }

  // ---- references ----

  /** Every reference to a component leads to the text of that component. */
  ghost predicate Holds(doc: Document, spec: Spec) {
    forall n | n in spec.schemas && '/' !in n && '~' !in n ::
      Resolve(doc, COMPONENT_PREFIX + n) == Some(RefText(spec.schemas[n]))
  }

  lemma {:induction false} PlainReplace(s: string, c: char, to: string)
    requires c !in s
    ensures Pointers.ReplaceChar(s, c, to) == s
  {
    if s != [] {
      PlainReplace(s[1..], c, to);
      assert s == [s[0]] + s[1..];
    }
  }

  lemma PlainEscape(s: string)
    requires '/' !in s && '~' !in s
    ensures Pointers.Escape(s) == s
  {
    PlainReplace(s, '~', "~0");
    PlainReplace(s, '/', "~1");
  }

  lemma PlainTail(a: string, b: string, c: string)
    requires forall s | s in [a, b, c] :: '/' !in s && '~' !in s
    ensures Pointers.Tail([a, b, c]) == "/" + a + "/" + b + "/" + c
  {
    PlainStep(c, []);
    PlainStep(b, [c]);
    PlainStep(a, [b, c]);
    assert [c] + [] == [c] && [b] + [c] == [b, c] && [a] + [b, c] == [a, b, c];
    assert "/" + c + "" == "/" + c;
    ThreeTokens("/" + a, "/" + b, "/" + c, a, b, c);
  }

  lemma ThreeTokens(x: string, y: string, z: string, a: string, b: string, c: string)
    requires x == "/" + a && y == "/" + b && z == "/" + c
    ensures x + (y + z) == "/" + a + "/" + b + "/" + c
  {}

  lemma PlainStep(a: string, path: seq<string>)
    requires '/' !in a && '~' !in a
    ensures Pointers.Tail([a] + path) == "/" + a + Pointers.Tail(path)
  {
    PlainEscape(a);
    assert ([a] + path)[1..] == path;
  }

  lemma PlainNode(v: Value, a: string, b: string, c: string)
    requires v.HasObj(a) && v.fields[a].HasObj(b) && v.fields[a].fields[b].Has(c)
    ensures Pointers.NodeAt(v, [a, b, c]) == Some(v.fields[a].fields[b].fields[c])
  {
    assert [c][1..] == [] && [b, c][1..] == [c] && [a, b, c][1..] == [b, c];
    var x := v.fields[a];
    var y := x.fields[b];
    assert Pointers.NodeAt(y, [c]) == Some(y.fields[c]);
    assert Pointers.NodeAt(x, [b, c]) == Some(y.fields[c]);
  }

  lemma RefAt(doc: Document, a: string, b: string, c: string)
    requires forall s | s in [a, b, c] :: '/' !in s && '~' !in s
    requires doc.root.HasObj(a) && doc.root.fields[a].HasObj(b) && doc.root.fields[a].fields[b].Has(c)
    ensures Resolve(doc, "#/" + a + "/" + b + "/" + c) == Some(doc.root.fields[a].fields[b].fields[c])
  {
    PlainNode(doc.root, a, b, c);
    ReferenceRoundTrip(doc, [a, b, c]);
    PlainTail(a, b, c);
    assert "#" + ("/" + a + "/" + b + "/" + c) == "#/" + a + "/" + b + "/" + c;
  }

  lemma NotAComponent(k: Kind)
    ensures forall j | 0 <= j < |Entries(k)| :: Entries(k)[j].key != "components"
  {}

  lemma ReferenceHasRef(target: string)
    ensures HasRef(RefText(Reference(target)))
  {
    FieldsAt(RefEntries(Reference(target)), 0);
  }

  lemma RootComponents(spec: Spec, r: SchemaRef)
    requires HasRef(RefText(r))
    ensures Root(spec, r).Has("components")
    ensures Root(spec, r).fields["components"] == Obj(map["schemas" := ComponentsText(spec)])
  {
    var entries := RefEntries(r) + Attached(spec);
    if r.Item? {
      NotAComponent(r.schema.kind);
    }
    assert entries[|RefEntries(r)|] == Attached(spec)[0];
    FieldsAt(entries, |RefEntries(r)|);
  }

  lemma PrefixParts(a: string, b: string)
    requires a == "components" && b == "schemas"
    ensures '/' !in a && '~' !in a && '/' !in b && '~' !in b
    ensures "#/" + a + "/" + b + "/" == COMPONENT_PREFIX
  {}

  lemma ComponentAt(doc: Document, components: map<string, Value>, a: string, b: string, n: string)
    requires '/' !in n && '~' !in n && n in components
    requires '/' !in a && '~' !in a && '/' !in b && '~' !in b && "#/" + a + "/" + b + "/" == COMPONENT_PREFIX
    requires doc.root.Has(a) && doc.root.fields[a] == Obj(map[b := Obj(components)])
    ensures Resolve(doc, COMPONENT_PREFIX + n) == Some(components[n])
  {
    RefAt(doc, a, b, n);
  }

  /** In the document a schema with references is handed over in, every component is where references to it lead. */
  lemma RootHolds(spec: Spec, r: SchemaRef, doc: Document)
    requires doc.root == Root(spec, r) && HasRef(RefText(r))
    ensures Holds(doc, spec)
  {
    RootComponents(spec, r);
    forall n | n in spec.schemas && '/' !in n && '~' !in n
      ensures Resolve(doc, COMPONENT_PREFIX + n) == Some(RefText(spec.schemas[n]))
    {
      PrefixParts("components", "schemas");
      ComponentAt(doc, ComponentsText(spec).fields, "components", "schemas", n);
    }
  }

  /** The components are at hand if the text refers to any. */
  ghost predicate Provided(doc: Document, spec: Spec, v: Value) {
    HasRef(v) ==> Holds(doc, spec)
  }

  lemma RootProvides(spec: Spec, r: SchemaRef, doc: Document)
    requires doc.root == Root(spec, r)
    ensures Provided(doc, spec, RefText(r))
  {
    if HasRef(RefText(r)) {
      RootHolds(spec, r, doc);
    }
  }

  lemma PropertyProvided(doc: Document, spec: Spec, k: Kind, i: nat)
    requires k.ObjectType? && DistinctNames(k.properties) && i < |k.properties| && Provided(doc, spec, Text(k, []))
    ensures Provided(doc, spec, RefText(k.properties[i].schema))
  {
    PropertiesAt(k, []);
    PropertiesRead(k.properties);
    var v := Text(k, []);
    if HasRef(RefText(k.properties[i].schema)) {
      FieldHasRef(v.fields["properties"], k.properties[i].name);
      FieldHasRef(v, "properties");
    }
  }

  lemma ItemsProvided(doc: Document, spec: Spec, k: Kind)
    requires k.ArrayType? && k.items.Some? && Provided(doc, spec, Text(k, []))
    ensures Provided(doc, spec, RefText(k.items.value))
  {
    ItemsRead(k, []);
    if HasRef(RefText(k.items.value)) {
      FieldHasRef(Text(k, []), "items");
    }
  }

  lemma BranchProvided(doc: Document, spec: Spec, k: Kind)
    requires k.AnyOf? && k.branches != [] && Provided(doc, spec, Text(k, []))
    ensures Provided(doc, spec, RefText(k.branches[0]))
  {
    var v := Text(k, []);
    AnyOfBranches(k.branches, []);
    if HasRef(RefText(k.branches[0])) {
      assert RefText(k.branches[0]) in v.fields["anyOf"].items;
      assert HasRef(v.fields["anyOf"]);
      FieldHasRef(v, "anyOf");
    }
  }

  lemma ItemProvided(doc: Document, spec: Spec, schema: Schema)
    requires Provided(doc, spec, RefText(Item(schema)))
    ensures Provided(doc, spec, Text(schema.kind, []))
  {
    var more := SchemaText.Beside(schema.nullable, schema.discriminator);
    assert Entries(schema.kind) + [] == Entries(schema.kind);
    assert RefEntries(Item(schema)) == Entries(schema.kind) + more;
    if HasRef(Text(schema.kind, [])) {
      PrefixHasRef(Entries(schema.kind), more);
    }
  }

  // ---- the walk meets the validator ----

  lemma {:induction false} ObjectAccepted(spec: Spec, k: Kind, extra: seq<Entry>, doc: Document, opts: Options,
                                          visited: seq<string>, depth: nat, room: nat, entered: set<string>)
    requires Founded(spec) && Provided(doc, spec, Text(k, [])) && AllBeside(extra) && depth + room <= opts.maxDepth
    requires k.ObjectType? && SchemaWalkable(spec, Schema(false, None, k), room, entered)
    requires forall t | t in visited :: t in entered
    ensures Acceptance.ObjectAccepts(spec, k, StaticObject(Text(k, extra), doc, opts, visited, depth), {})
    decreases room, 0
  {
    var r := StaticObject(Text(k, extra), doc, opts, visited, depth);
    ObjectKeys(k, extra, doc, opts, visited, depth);
    forall p | p in k.properties && p.name in r.fields && ResolveSchema(spec, p.schema).Some?
      ensures Acceptance.Accepts(spec, ResolveSchema(spec, p.schema).value, r.fields[p.name], {})
    {
      PropertyAccepted(spec, k, p, extra, doc, opts, visited, depth, room, entered);
    }
    OpenEnough(spec, k, r, {});
  }

  lemma {:induction false} PropertyAccepted(spec: Spec, k: Kind, p: Property, extra: seq<Entry>, doc: Document,
                                            opts: Options, visited: seq<string>, depth: nat, room: nat,
                                            entered: set<string>)
    requires Founded(spec) && Provided(doc, spec, Text(k, [])) && AllBeside(extra) && depth + room <= opts.maxDepth
    requires k.ObjectType? && SchemaWalkable(spec, Schema(false, None, k), room, entered)
    requires forall t | t in visited :: t in entered
    requires p in k.properties && ResolveSchema(spec, p.schema).Some?
    ensures var r := StaticObject(Text(k, extra), doc, opts, visited, depth);
            p.name in r.fields ==> Acceptance.Accepts(spec, ResolveSchema(spec, p.schema).value, r.fields[p.name], {})
    decreases room, 0, 0
  {
    if p.name in StaticObject(Text(k, extra), doc, opts, visited, depth).fields {
      var i :| 0 <= i < |k.properties| && k.properties[i] == p;
      PropertyProvided(doc, spec, k, i);
      PropertyWalk(k, i, extra, doc, opts, visited, depth);
      TextAccepted(spec, p.schema, doc, opts, visited, depth + 1, room - 1, entered);
    }
  }

  /** An object whose declared properties fit and whose others are allowed fits. */
  lemma OpenEnough(spec: Spec, k: Kind, r: Value, forgiven: set<string>)
    requires Founded(spec) && k.ObjectType? && r.Obj?
    requires forall name | name in k.required :: name in r.fields
    requires forall key | key in r.fields :: Undeclared(k.additional) || Validator.Declares(k.properties, key)
    requires forall p | p in k.properties && p.name in r.fields && ResolveSchema(spec, p.schema).Some? ::
               Acceptance.Accepts(spec, ResolveSchema(spec, p.schema).value, r.fields[p.name], forgiven)
    ensures Acceptance.ObjectAccepts(spec, k, r, forgiven)
  {
    assert Acceptance.PropertiesAccept(spec, k.properties, r, forgiven);
  }

  lemma PropertyWalk(k: Kind, i: nat, extra: seq<Entry>, doc: Document, opts: Options, visited: seq<string>, depth: nat)
    requires k.ObjectType? && AllBeside(extra) && depth < opts.maxDepth && i < |k.properties|
              && DistinctNames(k.properties)
    ensures var r := StaticObject(Text(k, extra), doc, opts, visited, depth); var p := k.properties[i];
      p.name in r.fields ==> r.fields[p.name] == StaticValue(RefText(p.schema), doc, opts, visited, depth + 1)
  {
    ObjectRead(k, extra);
    PropertiesRead(k.properties);
    assert PropertySchema(Text(k, extra), k.properties[i].name) == RefText(k.properties[i].schema);
  }

  /** The walk gives an object its required properties, and of the others only declared ones. */
  lemma ObjectKeys(k: Kind, extra: seq<Entry>, doc: Document, opts: Options, visited: seq<string>, depth: nat)
    requires k.ObjectType? && AllBeside(extra) && depth < opts.maxDepth
    ensures var r := StaticObject(Text(k, extra), doc, opts, visited, depth);
      && r.Obj?
      && (forall name | name in k.required :: name in r.fields)
      && (forall key | key in r.fields :: key in k.required || Validator.Declares(k.properties, key))
  {
    ObjectRead(k, extra);
    PropertiesRead(k.properties);
  }

  lemma {:induction false} ArrayAccepted(spec: Spec, k: Kind, extra: seq<Entry>, doc: Document, opts: Options,
                                         visited: seq<string>, depth: nat, room: nat, entered: set<string>)
    requires Founded(spec) && Provided(doc, spec, Text(k, [])) && AllBeside(extra) && depth + room <= opts.maxDepth
    requires k.ArrayType? && SchemaWalkable(spec, Schema(false, None, k), room, entered)
    requires forall t | t in visited :: t in entered
    ensures Acceptance.ArrayAccepts(spec, k, StaticArray(Text(k, extra), doc, opts, visited, depth), {})
    decreases room, 0
  {
    var v := Text(k, extra);
    var filler := StaticValue(ItemSchema(v), doc, opts, visited, depth + 1);
    ItemsRead(k, extra);
    PaddingFits(k, extra, filler, opts);
    if k.items.Some? {
      ItemsProvided(doc, spec, k);
      TextAccepted(spec, k.items.value, doc, opts, visited, depth + 1, room - 1, entered);
    }
  }

  lemma {:induction false} AnyOfAccepted(spec: Spec, schema: Schema, extra: seq<Entry>, doc: Document, opts: Options,
                                         visited: seq<string>, depth: nat, room: nat, entered: set<string>)
    requires Founded(spec) && Provided(doc, spec, Text(schema.kind, [])) && AllBeside(extra)
    requires depth + room <= opts.maxDepth
    requires schema.kind.AnyOf? && SchemaWalkable(spec, schema, room, entered)
    requires forall t | t in visited :: t in entered
    ensures Acceptance.Accepts(spec, schema, StaticValue(Text(schema.kind, extra), doc, opts, visited, depth), {})
    decreases room, 0
  {
    var branches := schema.kind.branches;
    var v := Text(schema.kind, extra);
    AnyOfText(branches, extra, doc, opts, visited, depth);
    BranchProvided(doc, spec, schema.kind);
    TextAccepted(spec, branches[0], doc, opts, visited, depth + 1, room - 1, entered);
    assert Acceptance.Hits(spec, branches, 0, StaticValue(v, doc, opts, visited, depth));
    assert 0 in Acceptance.Accepting(spec, branches, StaticValue(v, doc, opts, visited, depth));
  }

  lemma OnlyAnyOf(branches: seq<SchemaRef>, extra: seq<Entry>, key: string)
    requires AllBeside(extra) && key != "anyOf" && !Beside(key)
    ensures key !in Fields(Entries(AnyOf(branches)) + extra)
  {
    FieldsKeys(Entries(AnyOf(branches)) + extra, key);
  }

  /** With none of the keywords that come before it, the walk goes by the first branch of `anyOf`. */
  lemma AnyOfWalk(v: Value, first: Value, doc: Document, opts: Options, visited: seq<string>, depth: nat)
    requires v.Obj? && depth < opts.maxDepth && v.ArrayAt("anyOf") != [] && v.ArrayAt("anyOf")[0] == first
    requires forall key | key in {"$ref", "const", "enum", "examples", "example", "allOf"} :: key !in v.fields
    ensures StaticValue(v, doc, opts, visited, depth) == StaticValue(first, doc, opts, visited, depth + 1)
  {
  }

  lemma AnyOfText(branches: seq<SchemaRef>, extra: seq<Entry>, doc: Document, opts: Options, visited: seq<string>,
                  depth: nat)
    requires branches != [] && AllBeside(extra) && depth < opts.maxDepth
    ensures StaticValue(Text(AnyOf(branches), extra), doc, opts, visited, depth) ==
            StaticValue(RefText(branches[0]), doc, opts, visited, depth + 1)
  {
    var v := Text(AnyOf(branches), extra);
    forall key | key in {"$ref", "const", "enum", "examples", "example", "allOf"}
      ensures key !in v.fields
    {
      OnlyAnyOf(branches, extra, key);
    }
    AnyOfBranches(branches, extra);
    AnyOfWalk(v, RefText(branches[0]), doc, opts, visited, depth);
  }

  lemma AnyOfBranches(branches: seq<SchemaRef>, extra: seq<Entry>)
    requires branches != []
    ensures Text(AnyOf(branches), extra).ArrayAt("anyOf") == BranchesText(branches)
    ensures BranchesText(branches) != [] && BranchesText(branches)[0] == RefText(branches[0])
  {
    var entries := Entries(AnyOf(branches)) + extra;
    assert entries[0] == Entry("anyOf", true, Arr(BranchesText(branches)));
    FieldsAt(entries, 0);
  }

  lemma {:induction false} SchemaAccepted(spec: Spec, schema: Schema, extra: seq<Entry>, doc: Document, opts: Options,
                                          visited: seq<string>, depth: nat, room: nat, entered: set<string>)
    requires Founded(spec) && Provided(doc, spec, Text(schema.kind, [])) && AllBeside(extra)
    requires depth + room <= opts.maxDepth
    requires SchemaWalkable(spec, schema, room, entered)
    requires forall t | t in visited :: t in entered
    ensures Acceptance.Accepts(spec, schema, StaticValue(Text(schema.kind, extra), doc, opts, visited, depth), {})
    decreases room, 1
  {
    if schema.kind.ObjectType? {
      KindWalk(schema.kind, extra, doc, opts, visited, depth);
      ObjectAccepted(spec, schema.kind, extra, doc, opts, visited, depth, room, entered);
    } else if schema.kind.ArrayType? {
      KindWalk(schema.kind, extra, doc, opts, visited, depth);
      ArrayAccepted(spec, schema.kind, extra, doc, opts, visited, depth, room, entered);
    } else if schema.kind.AnyOf? {
      AnyOfAccepted(spec, schema, extra, doc, opts, visited, depth, room, entered);
    } else {
      LeafAccepted(spec, schema, extra, doc, opts, visited, depth);
    }
  }

  lemma {:induction false} TextAccepted(spec: Spec, r: SchemaRef, doc: Document, opts: Options,
                                        visited: seq<string>, depth: nat, room: nat, entered: set<string>)
    requires Founded(spec) && Provided(doc, spec, RefText(r))
    requires depth + room <= opts.maxDepth && Walkable(spec, r, room, entered)
    requires forall t | t in visited :: t in entered
    ensures ResolveSchema(spec, r).Some?
    ensures Acceptance.Accepts(spec, ResolveSchema(spec, r).value, StaticValue(RefText(r), doc, opts, visited, depth),
                               {})
    decreases room, 3
  {
    WalkAccepted(spec, r, [], doc, opts, visited, depth, room, entered);
    assert RefEntries(r) + [] == RefEntries(r);
  }

  /** What the walk makes of the text of a schema satisfies the schema. */
  lemma {:induction false} WalkAccepted(spec: Spec, r: SchemaRef, extra: seq<Entry>, doc: Document, opts: Options,
                                        visited: seq<string>, depth: nat, room: nat, entered: set<string>)
    requires Founded(spec) && Provided(doc, spec, RefText(r)) && AllBeside(extra) && depth + room <= opts.maxDepth
    requires Walkable(spec, r, room, entered)
    requires forall t | t in visited :: t in entered
    ensures ResolveSchema(spec, r).Some?
    ensures Acceptance.Accepts(spec, ResolveSchema(spec, r).value,
                               StaticValue(Obj(Fields(RefEntries(r) + extra)), doc, opts, visited, depth), {})
    decreases room, 2
  {
    match r
    case Item(schema) =>
      var more := SchemaText.Beside(schema.nullable, schema.discriminator) + extra;
      assert RefEntries(r) + extra == Entries(schema.kind) + more;
      ItemProvided(doc, spec, schema);
      SchemaAccepted(spec, schema, more, doc, opts, visited, depth, room, entered);
    case Reference(target) =>
      ReferenceAccepted(spec, target, extra, doc, opts, visited, depth, room, entered);
  }

  lemma {:induction false} ReferenceAccepted(spec: Spec, target: string, extra: seq<Entry>, doc: Document,
                                             opts: Options, visited: seq<string>, depth: nat, room: nat,
                                             entered: set<string>)
    requires Founded(spec) && Provided(doc, spec, RefText(Reference(target))) && AllBeside(extra)
    requires Walkable(spec, Reference(target), room, entered) && depth + room <= opts.maxDepth
    requires forall t | t in visited :: t in entered
    ensures ResolveSchema(spec, Reference(target)).Some?
    ensures Acceptance.Accepts(spec, ResolveSchema(spec, Reference(target)).value,
                               StaticValue(Obj(Fields(RefEntries(Reference(target)) + extra)), doc, opts, visited,
                                           depth), {})
    decreases room, 2, 0
  {
    var r := Reference(target);
    var schema := ResolveSchema(spec, r).value;
    var v := Obj(Fields(RefEntries(r) + extra));
    ReferenceHasRef(target);
    FieldsAt(RefEntries(r) + extra, 0);
    var n := target[|COMPONENT_PREFIX|..];
    assert target == COMPONENT_PREFIX + n;
    assert Resolve(doc, target) == Some(RefText(Item(schema)));
    assert StaticValue(v, doc, opts, visited, depth) ==
           StaticValue(RefText(Item(schema)), doc, opts, visited + [target], depth);
    var more := SchemaText.Beside(schema.nullable, schema.discriminator);
    assert RefEntries(Item(schema)) == Entries(schema.kind) + more;
    SchemaAccepted(spec, schema, more, doc, opts, visited + [target], depth, room, entered + {target});
  }

  /**
   * The generator meets the validator: the static value of a covered schema, made from the document the
   * engine hands to the generator, draws no validation error.
   */
  lemma StaticValuePasses(spec: Spec, r: SchemaRef, doc: Document, opts: Options, loc: Validator.Location,
                          field: string)
    requires Founded(spec) && Walkable(spec, r, opts.maxDepth, {})
    requires doc.root == Root(spec, r)
    ensures ResolveSchema(spec, r).Some?
    ensures Validator.Validate(spec, ResolveSchema(spec, r).value, StaticValue(doc.root, doc, opts, [], 0), loc,
                               field) == []
  {
    RootProvides(spec, r, doc);
    if HasRef(RefText(r)) {
      WalkAccepted(spec, r, Attached(spec), doc, opts, [], 0, opts.maxDepth, {});
    } else {
      WalkAccepted(spec, r, [], doc, opts, [], 0, opts.maxDepth, {});
      assert RefEntries(r) + [] == RefEntries(r);
    }
    if r.Reference? {
      ReferenceHasRef(r.target);
    }
    Acceptance.ValidatorDecides(spec, ResolveSchema(spec, r).value, StaticValue(doc.root, doc, opts, [], 0), loc,
                                field);
  }
}
