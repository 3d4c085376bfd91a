/** The JSON a typed schema is written as, which is what the generators walk. */
module SchemaText {
  import opened Strings
  import opened Json
  import opened Schemas

  /** A keyword that is written only when `given`. */
  datatype Entry = Entry(key: string, given: bool, value: Value)

  function Fields(entries: seq<Entry>): map<string, Value> {
    if entries == [] then map[]
    else if entries[0].given then Fields(entries[1..])[entries[0].key := entries[0].value]
    else Fields(entries[1..])
  }

  function Count(n: Option<nat>): Value {
    if n.Some? then Num(Whole(n.value)) else Null
  }

  function Int(n: Option<int>): Value {
    if n.Some? then Num(Whole(n.value)) else Null
  }

  function Real(r: Option<real>): Value {
    if r.Some? then Num(Fraction(r.value)) else Null
  }

  function Text(s: Option<string>): Value {
    if s.Some? then Str(s.value) else Null
  }

  function Truth(b: Option<bool>): Value {
    if b.Some? then Bool(b.value) else Null
  }

  function Texts(xs: seq<Option<string>>): seq<Value> {
    seq(|xs|, i requires 0 <= i < |xs| => Text(xs[i]))
  }

  function Ints(xs: seq<Option<int>>): seq<Value> {
    seq(|xs|, i requires 0 <= i < |xs| => Int(xs[i]))
  }

  function Reals(xs: seq<Option<real>>): seq<Value> {
    seq(|xs|, i requires 0 <= i < |xs| => Real(xs[i]))
  }

  function Truths(xs: seq<Option<bool>>): seq<Value> {
    seq(|xs|, i requires 0 <= i < |xs| => Truth(xs[i]))
  }

  function Names(xs: seq<string>): seq<Value> {
    seq(|xs|, i requires 0 <= i < |xs| => Str(xs[i]))
  }

  /** What every schema of a type carries: its name, its enumeration, and keywords of its own. */
  function Typed(name: string, values: seq<Value>, own: seq<Entry>): seq<Entry> {
    [Entry("type", true, Str(name)), Entry("enum", values != [], Arr(values))] + own
  }

  function LeafEntries(k: Kind): seq<Entry>
    requires k.StringType? || k.IntegerType? || k.NumberType? || k.BooleanType?
  {
    match k
    case StringType(texts, minLength, maxLength, pattern, format) =>
      Typed("string", Texts(texts),
            [Entry("minLength", minLength.Some?, Count(minLength)),
             Entry("maxLength", maxLength.Some?, Count(maxLength)),
             Entry("pattern", pattern.Some?, Text(pattern)), Entry("format", format.Some?, Text(format))])
    case IntegerType(int32, ints, low, high, above, below, multiple) =>
      Typed("integer", Ints(ints),
            [Entry("format", int32, Str("int32")),
             Entry("minimum", low.Some?, Int(low)), Entry("maximum", high.Some?, Int(high)),
             Entry("exclusiveMinimum", above, Bool(true)), Entry("exclusiveMaximum", below, Bool(true)),
             Entry("multipleOf", multiple.Some?, Int(multiple))])
    case NumberType(reals, low, high, above, below, multiple) =>
      Typed("number", Reals(reals),
            [Entry("minimum", low.Some?, Real(low)), Entry("maximum", high.Some?, Real(high)),
             Entry("exclusiveMinimum", above, Bool(true)), Entry("exclusiveMaximum", below, Bool(true)),
             Entry("multipleOf", multiple.Some?, Real(multiple))])
    case BooleanType(bools) => Typed("boolean", Truths(bools), [])
  }

  /** Where two properties share a name, the later one stands. */
  function PropertiesText(properties: seq<Property>): map<string, Value>
    decreases properties
  {
    if properties == [] then map[]
    else
      var Property(name, schema) := properties[|properties| - 1];
      assert schema < properties[|properties| - 1];
      PropertiesText(properties[..|properties| - 1])[name := RefText(schema)]
  }

  function BranchesText(branches: seq<SchemaRef>): seq<Value>
    decreases branches
  {
    if branches == [] then [] else [RefText(branches[0])] + BranchesText(branches[1..])
  }

  function AdditionalText(additional: Additional): Value
    decreases additional
  {
    match additional
    case Unspecified => Null
    case Permitted(yes) => Bool(yes)
    case Constrained(schema) => RefText(schema)
  }

  function OptionText(r: Option<SchemaRef>): Value
    decreases r
  {
    if r.Some? then RefText(r.value) else Null
  }

  function Entries(k: Kind): seq<Entry>
    decreases k
  {
    match k
    case ObjectType(required, properties, additional) =>
      Typed("object", [],
            [Entry("required", required != [], Arr(Names(required))),
             Entry("properties", properties != [], Obj(PropertiesText(properties))),
             Entry("additionalProperties", !additional.Unspecified?, AdditionalText(additional))])
    case ArrayType(items, minItems, maxItems, unique) =>
      Typed("array", [],
            [Entry("items", items.Some?, OptionText(items)),
             Entry("minItems", minItems.Some?, Count(minItems)), Entry("maxItems", maxItems.Some?, Count(maxItems)),
             Entry("uniqueItems", unique, Bool(true))])
    case OneOf(branches) => [Entry("oneOf", true, Arr(BranchesText(branches)))]
    case AnyOf(branches) => [Entry("anyOf", true, Arr(BranchesText(branches)))]
    case AllOf(branches) => [Entry("allOf", true, Arr(BranchesText(branches)))]
    case Not(branch) => [Entry("not", true, RefText(branch))]
    case AnyType(typ, values, pattern, format, excluded, required, properties) =>
      [Entry("type", typ.Some?, Text(typ)), Entry("enum", values != [], Arr(values)),
       Entry("pattern", pattern.Some?, Text(pattern)), Entry("format", format.Some?, Text(format)),
       Entry("not", excluded.Some?, OptionText(excluded)),
       Entry("required", required != [], Arr(Names(required))),
       Entry("properties", properties != [], Obj(PropertiesText(properties)))]
    case _ => LeafEntries(k)
  }

  function DiscriminatorText(d: Discriminator): Value {
    Obj(map["propertyName" := Str(d.property),
            "mapping" := Obj(map k | k in d.mapping :: Str(d.mapping[k]))])
  }

  /** What is written beside the keywords of the kind. */
  function Beside(nullable: bool, discriminator: Option<Discriminator>): seq<Entry> {
    [Entry("nullable", nullable, Bool(true)),
     Entry("discriminator", discriminator.Some?,
           if discriminator.Some? then DiscriminatorText(discriminator.value) else Null)]
  }

  function RefEntries(r: SchemaRef): seq<Entry>
    decreases r, 0
  {
    match r
    case Reference(target) => [Entry("$ref", true, Str(target))]
    case Item(Schema(nullable, discriminator, kind)) =>
      assert kind < r.schema < r;
      Entries(kind) + Beside(nullable, discriminator)
  }

  function RefText(r: SchemaRef): Value
    decreases r, 1
  {
    Obj(Fields(RefEntries(r)))
  }

  function ComponentsText(spec: Spec): Value {
    Obj(map n | n in spec.schemas :: RefText(spec.schemas[n]))
  }

  /** `attach_components`: the component schemas, under both of the places references lead to. */
  function Attached(spec: Spec): seq<Entry> {
    [Entry("components", true, Obj(map["schemas" := ComponentsText(spec)])), Entry("$defs", true, ComponentsText(spec))]
  }

  /** `schema_has_ref`: a key `$ref` stands anywhere in the tree. */
  predicate HasRef(v: Value) {
    match v
    case Arr(items) => exists x | x in items :: HasRef(x)
    case Obj(fields) => "$ref" in fields || exists k | k in fields :: HasRef(fields[k])
    case _ => false
  }

  /** The document handed to the generators for a schema: its text, and the components beside it if it refers to any. */
  function Root(spec: Spec, r: SchemaRef): Value {
    match r
    case Item(_) => if HasRef(RefText(r)) then Obj(Fields(RefEntries(r) + Attached(spec))) else RefText(r)
    case Reference(_) => Obj(Fields(RefEntries(r) + Attached(spec)))
  }

  // ---- reading a text back ----

  predicate Written(entries: seq<Entry>, key: string) {
    exists i | 0 <= i < |entries| :: entries[i].given && entries[i].key == key
  }

  lemma {:induction false} FieldsKeys(entries: seq<Entry>, key: string)
    ensures key in Fields(entries) <==> Written(entries, key)
  {
    if entries != [] {
      FieldsKeys(entries[1..], key);
      assert forall i | 0 < i < |entries| :: entries[i] == entries[1..][i - 1];
      assert forall i | 0 <= i < |entries[1..]| :: entries[1..][i] == entries[i + 1];
    }
  }

  /** The first entry of a keyword is the one that stands. */
  lemma {:induction false} FieldsAt(entries: seq<Entry>, i: nat)
    requires i < |entries| && entries[i].given
    requires forall j | 0 <= j < i :: entries[j].key != entries[i].key
    ensures entries[i].key in Fields(entries) && Fields(entries)[entries[i].key] == entries[i].value
  {
    if i > 0 {
      assert entries[1..][i - 1] == entries[i];
      FieldsAt(entries[1..], i - 1);
    }
  }

  /** What is written later takes nothing back. */
  lemma {:induction false} FieldsPrefix(a: seq<Entry>, b: seq<Entry>)
    ensures forall k | k in Fields(a) :: k in Fields(a + b) && Fields(a + b)[k] == Fields(a)[k]
  {
    if a != [] {
      assert (a + b)[0] == a[0] && (a + b)[1..] == a[1..] + b;
      FieldsPrefix(a[1..], b);
    }
  }

  lemma FieldHasRef(v: Value, key: string)
    requires v.Has(key) && HasRef(v.fields[key])
    ensures HasRef(v)
  {
  }

  lemma PrefixHasRef(a: seq<Entry>, b: seq<Entry>)
    requires HasRef(Obj(Fields(a)))
    ensures HasRef(Obj(Fields(a + b)))
  {
    FieldsPrefix(a, b);
    if "$ref" !in Fields(a) {
      var k :| k in Fields(a) && HasRef(Fields(a)[k]);
      FieldHasRef(Obj(Fields(a + b)), k);
    }
  }
}
