/** What a schema tree accepts under OpenAPI 3.1 and under 3.0 rules, and that normalising keeps it. */
module Dialects {
  import opened Strings
  import opened Json
  import opened Normaliser

  datatype Dialect = Oas31 | Oas30

  predicate HasNum(s: Value, key: string) {
    s.Has(key) && s.fields[key].Num?
  }

  function NumAt(s: Value, key: string): real
    requires HasNum(s, key)
  {
    AsReal(s.fields[key].n)
  }

  predicate Flag(s: Value, key: string) {
    s.Has(key) && s.fields[key] == Bool(true)
  }

  /** JSON Schema Validation 2020-12, section 6.1.1: an integer is any number without a fraction. */
  predicate IsOfType(t: string, v: Value) {
    match t
    case "null" => v.Null?
    case "boolean" => v.Bool?
    case "number" => v.Num?
    case "integer" => v.Num? && AsReal(v.n).Floor as real == AsReal(v.n)
    case "string" => v.Str?
    case "array" => v.Arr?
    case "object" => v.Obj?
    case _ => false
  }

  predicate TypeAllows(s: Value, v: Value) {
    if s.HasStr("type") then IsOfType(s.fields["type"].s, v)
    else if s.HasArr("type") then exists t | t in s.fields["type"].items :: t.Str? && IsOfType(t.s, v)
    else true
  }

  predicate Beyond(low: bool, bound: real, r: real) {
    if low then bound <= r else r <= bound
  }

  /**
   * Sections 6.2.2 to 6.2.5, for the lower or the upper side. An exclusive bound is a number of its own in 3.1, and a
   * flag on the plain bound in 3.0.
   */
  predicate SideAllows(d: Dialect, s: Value, low: bool, plain: string, exclusive: string, r: real) {
    && (HasNum(s, plain) ==> Beyond(low, NumAt(s, plain), r))
    && match d
       case Oas31 => HasNum(s, exclusive) ==> Beyond(low, NumAt(s, exclusive), r) && NumAt(s, exclusive) != r
       case Oas30 => HasNum(s, plain) && Flag(s, exclusive) ==> NumAt(s, plain) != r
  }

  predicate BoundsAllow(d: Dialect, s: Value, v: Value) {
    v.Num? ==>
      && SideAllows(d, s, true, "minimum", "exclusiveMinimum", AsReal(v.n))
      && SideAllows(d, s, false, "maximum", "exclusiveMaximum", AsReal(v.n))
  }

  predicate SizesAllow(s: Value, v: Value) {
    && (v.Str? ==>
          && (s.HasCount("minLength") ==> s.CountAt("minLength") <= |v.s|)
          && (s.HasCount("maxLength") ==> |v.s| <= s.CountAt("maxLength")))
    && (v.Arr? ==>
          && (s.HasCount("minItems") ==> s.CountAt("minItems") <= |v.items|)
          && (s.HasCount("maxItems") ==> |v.items| <= s.CountAt("maxItems"))
          && (Flag(s, "uniqueItems") ==> forall i, j | 0 <= i < j < |v.items| :: v.items[i] != v.items[j]))
    && (v.Obj? ==> forall k | k in StringsOf(s.ArrayAt("required")) :: k in v.fields)
  }

  predicate LiteralsAllow(s: Value, v: Value) {
    && (s.HasArr("enum") ==> v in s.fields["enum"].items)
    && (s.Has("const") ==> v == s.fields["const"])
  }

  /** `named` says what a reference accepts; what a document makes of it is said in `Documents`. */
  ghost predicate Valid(d: Dialect, named: (string, Value) -> bool, s: Value, v: Value)
    decreases s, 3
  {
    if s.Bool? then s.b
    else if !s.Obj? then true
    else
      || (d.Oas30? && v.Null? && Flag(s, "nullable"))
      || (TypeAllows(s, v) && OthersAllow(d, named, s, v))
  }

  /** Every keyword but the type. */
  ghost predicate OthersAllow(d: Dialect, named: (string, Value) -> bool, s: Value, v: Value)
    requires s.Obj?
    decreases s, 2
  {
    && BoundsAllow(d, s, v)
    && SizesAllow(s, v)
    && LiteralsAllow(s, v)
    && (s.HasStr("$ref") ==> named(s.fields["$ref"].s, v))
    && ChildrenAllow(d, named, s, v)
    && CompositionsAllow(d, named, s, v)
  }

  ghost predicate ChildrenAllow(d: Dialect, named: (string, Value) -> bool, s: Value, v: Value)
    requires s.Obj?
    decreases s, 1
  {
    && (v.Obj? ==>
          && (forall k | k in s.ObjectAt("properties") && k in v.fields ::
                Valid(d, named, s.ObjectAt("properties")[k], v.fields[k]))
          && (s.Has("additionalProperties") ==>
                forall k | k in v.fields && k !in s.ObjectAt("properties") ::
                  Valid(d, named, s.fields["additionalProperties"], v.fields[k])))
    && (v.Arr? ==>
          && (forall i | 0 <= i < |s.ArrayAt("prefixItems")| && i < |v.items| ::
                Valid(d, named, s.ArrayAt("prefixItems")[i], v.items[i]))
          && (s.Has("items") ==>
                forall i | |s.ArrayAt("prefixItems")| <= i < |v.items| ::
                    Valid(d, named, s.fields["items"], v.items[i])))
  }

  ghost predicate CompositionsAllow(d: Dialect, named: (string, Value) -> bool, s: Value, v: Value)
    requires s.Obj?
    decreases s, 1
  {
    && (s.HasArr("allOf") ==> |Holding(d, named, s, "allOf", v)| == |s.ArrayAt("allOf")|)
    && (s.HasArr("anyOf") ==> Holding(d, named, s, "anyOf", v) != {})
    && (s.HasArr("oneOf") ==> |Holding(d, named, s, "oneOf", v)| == 1)
    && (s.Has("not") ==> !Valid(d, named, s.fields["not"], v))
  }

  /** The branches under a composition keyword that accept the value. */
  ghost function Holding(d: Dialect, named: (string, Value) -> bool, s: Value, key: string, v: Value): set<nat>
    requires s.Obj?
    decreases s, 0
  {
    set i: nat | i < |s.ArrayAt(key)| && Valid(d, named, s.ArrayAt(key)[i], v)
  }

  /** Normalising leaves the verdict on a value as it was. */
  ghost predicate KeptAt(named: (string, Value) -> bool, s: Value, v: Value) {
    Valid(Oas31, named, s, v) <==> Valid(Oas30, named, Normalise(s), v)
  }

  ghost predicate KeepsMeaning(named: (string, Value) -> bool, s: Value) {
    forall v :: KeptAt(named, s, v)
  }

  // ---- the trees the passes are meant for ----

  predicate IsSchema(v: Value) {
    v.Obj? || v.Bool?
  }

  /** Data the passes leave alone: no mapping in it reads like a nullable pair or like a lone exclusive bound. */
  predicate Inert(v: Value) {
    match v
    case Arr(items) => forall x | x in items :: Inert(x)
    case Obj(fields) =>
      && PairOf(fields).None?
      && !LoneBound(fields, "exclusiveMinimum", "minimum")
      && !LoneBound(fields, "exclusiveMaximum", "maximum")
      && forall k | k in fields :: Inert(fields[k])
    case _ => true
  }

  /** A `nullable` that is there already is left as it is. */
  predicate KeepsFlag(s: Value) {
    s.Has("nullable") ==> Flag(s, "nullable")
  }

  /**
   * Beside a nullable pair, null passes the other keywords exactly when the pair is going to allow it; and a node
   * without one uses the 3.0 keyword only where it accepts null anyway.
   */
  ghost predicate NullableSound(named: (string, Value) -> bool, s: Value)
    requires s.Obj?
  {
    if PairOf(s.fields).Some? then KeepsFlag(s) <==> OthersAllow(Oas31, named, s, Null)
    else Flag(s, "nullable") ==> Valid(Oas31, named, s, Null)
  }

  /** A plain bound carries no 3.0 flag, and stands beside an exclusive bound only if it already implies it. */
  predicate SideSound(s: Value, low: bool, plain: string, exclusive: string) {
    HasNum(s, plain) ==>
      && !Flag(s, exclusive)
      && (HasNum(s, exclusive) ==>
            Beyond(low, NumAt(s, exclusive), NumAt(s, plain)) && NumAt(s, exclusive) != NumAt(s, plain))
  }

  predicate BoundsSound(s: Value) {
    SideSound(s, true, "minimum", "exclusiveMinimum") && SideSound(s, false, "maximum", "exclusiveMaximum")
  }

  ghost predicate Sound(named: (string, Value) -> bool, s: Value)
    decreases s, 1
  {
    s.Obj? ==> NullableSound(named, s) && OthersSound(named, s)
  }

  /** The bounds, the literals and everything below. */
  ghost predicate OthersSound(named: (string, Value) -> bool, s: Value)
    requires s.Obj?
    decreases s, 0
  {
    && BoundsSound(s)
    && (s.HasArr("enum") ==> Inert(s.fields["enum"]))
    && (s.Has("const") ==> Inert(s.fields["const"]))
    && (forall k | k in s.ObjectAt("properties") ::
          IsSchema(s.ObjectAt("properties")[k]) && Sound(named, s.ObjectAt("properties")[k]))
    && (forall k | k in {"additionalProperties", "items", "not"} && s.Has(k) :: Sound(named, s.fields[k]))
    && (forall k, x | k in {"prefixItems", "allOf", "anyOf", "oneOf"} && x in s.ArrayAt(k) :: Sound(named, x))
  }

  // ---- what normalising leaves where it was ----

  const REWRITTEN: set<string> :=
    {"type", "nullable", "minimum", "maximum", "exclusiveMinimum", "exclusiveMaximum"}

  function Entries(m: map<string, Value>): map<string, Value> {
    Local(ExclusiveBounds, Local(Nullables, m))
  }

  lemma EntriesElsewhere(m: map<string, Value>, k: string)
    requires k !in REWRITTEN
    ensures k in Entries(m) <==> k in m
    ensures k in m ==> Entries(m)[k] == m[k]
  {
  }

  lemma NormalisedField(m: map<string, Value>, k: string)
    ensures Normalise(Obj(m)).Obj?
    ensures k in Normalise(Obj(m)).fields <==> k in Entries(m)
    ensures k in Entries(m) ==> Normalise(Obj(m)).fields[k] == Normalise(Entries(m)[k])
  {
    RunTwice(ExclusiveBounds, Nullables, m);
    var h := Entries(m);
    if k in h {
      assert RunFields(ExclusiveBounds, RunFields(Nullables, h))[k] == Run(ExclusiveBounds, Run(Nullables, h[k]));
    }
  }

  lemma NormalisedShape(v: Value)
    ensures Normalise(v).Arr? == v.Arr? && Normalise(v).Obj? == v.Obj?
    ensures !v.Arr? && !v.Obj? ==> Normalise(v) == v
    ensures v.Arr? ==> |Normalise(v).items| == |v.items|
                       && forall i | 0 <= i < |v.items| :: Normalise(v).items[i] == Normalise(v.items[i])
  {
  }

  lemma Elsewhere(s: Value, k: string)
    requires s.Obj? && k !in REWRITTEN
    ensures Normalise(s).Obj? && (Normalise(s).Has(k) <==> s.Has(k))
    ensures s.Has(k) ==> Normalise(s).fields[k] == Normalise(s.fields[k])
    ensures Normalise(s).HasStr(k) <==> s.HasStr(k)
    ensures Normalise(s).HasArr(k) <==> s.HasArr(k)
    ensures Normalise(s).HasCount(k) <==> s.HasCount(k)
    ensures Flag(Normalise(s), k) <==> Flag(s, k)
    ensures |Normalise(s).ArrayAt(k)| == |s.ArrayAt(k)|
    ensures forall i | 0 <= i < |s.ArrayAt(k)| :: Normalise(s).ArrayAt(k)[i] == Normalise(s.ArrayAt(k)[i])
  {
    EntriesElsewhere(s.fields, k);
    NormalisedField(s.fields, k);
    if s.Has(k) {
      NormalisedShape(s.fields[k]);
    }
  }

  lemma SchemasStay(props: map<string, Value>)
    requires forall k | k in props :: IsSchema(props[k])
    ensures Entries(props) == props
  {
    assert PairOf(props).None?;
    assert Local(Nullables, props) == props;
    assert WithBound(props, "exclusiveMinimum", "minimum") == props;
  }

  /** A mapping of schemas is itself untouched: an entry named like a keyword holds a schema, not its argument. */
  lemma SchemasNormalised(props: map<string, Value>)
    requires forall k | k in props :: IsSchema(props[k])
    ensures Normalise(Obj(props)).Obj? && Normalise(Obj(props)).fields.Keys == props.Keys
    ensures forall k | k in props :: Normalise(Obj(props)).fields[k] == Normalise(props[k])
  {
    SchemasStay(props);
    forall k
      ensures Normalise(Obj(props)).Obj? && (k in Normalise(Obj(props)).fields <==> k in props)
      ensures k in props ==> Normalise(Obj(props)).fields[k] == Normalise(props[k])
    {
      NormalisedField(props, k);
    }
  }

  /** So for the schemas under a keyword that is not rewritten. */
  lemma SchemasElsewhere(s: Value, key: string)
    requires s.Obj? && key !in REWRITTEN && forall k | k in s.ObjectAt(key) :: IsSchema(s.ObjectAt(key)[k])
    ensures Normalise(s).Obj?
    ensures Normalise(s).ObjectAt(key).Keys == s.ObjectAt(key).Keys
    ensures forall k | k in s.ObjectAt(key) :: Normalise(s).ObjectAt(key)[k] == Normalise(s.ObjectAt(key)[k])
  {
    Elsewhere(s, key);
    if s.HasObj(key) {
      assert s.fields[key] == Obj(s.ObjectAt(key));
      SchemasNormalised(s.ObjectAt(key));
    } else if s.Has(key) {
      NormalisedShape(s.fields[key]);
    }
  }

  // ---- part by part ----

  lemma EntriesOfType(m: map<string, Value>)
    ensures PairOf(m).Some? ==>
              && "type" in Entries(m) && Entries(m)["type"] == Str(PairOf(m).value)
              && "nullable" in Entries(m)
              && Entries(m)["nullable"] == if "nullable" in m then m["nullable"] else Bool(true)
    ensures PairOf(m).None? ==>
              && ("type" in Entries(m) <==> "type" in m) && ("nullable" in Entries(m) <==> "nullable" in m)
              && ("type" in m ==> Entries(m)["type"] == m["type"])
              && ("nullable" in m ==> Entries(m)["nullable"] == m["nullable"])
  {
    BoundsElsewhere(Local(Nullables, m), "type");
    BoundsElsewhere(Local(Nullables, m), "nullable");
  }

  lemma BoundsElsewhere(m: map<string, Value>, k: string)
    requires k !in {"minimum", "maximum", "exclusiveMinimum", "exclusiveMaximum"}
    ensures k in Local(ExclusiveBounds, m) <==> k in m
    ensures k in m ==> Local(ExclusiveBounds, m)[k] == m[k]
  {
  }

  lemma NotTheNullType(t: string)
    requires t != "null"
    ensures !IsOfType(t, Null)
  {
  }

  lemma PairPart(s: Value, v: Value)
    requires s.Obj? && PairOf(s.fields).Some?
    ensures Flag(Normalise(s), "nullable") <==> KeepsFlag(s)
    ensures TypeAllows(s, v) <==> v.Null? || TypeAllows(Normalise(s), v)
    ensures !TypeAllows(Normalise(s), Null)
  {
    var m, n, t := s.fields, Normalise(s), PairOf(s.fields).value;
    EntriesOfType(m);
    NormalisedField(m, "type");
    NormalisedField(m, "nullable");
    if "nullable" in m {
      NormalisedShape(m["nullable"]);
    }
    NormalisedShape(Str(t));
    assert n.HasStr("type") && n.fields["type"].s == t;
    PairMeans(m["type"].items, v);
    NotTheNullType(t);
  }

  lemma TypePart(s: Value, v: Value)
    requires s.Obj? && PairOf(s.fields).None?
    ensures Flag(Normalise(s), "nullable") <==> Flag(s, "nullable")
    ensures TypeAllows(Normalise(s), v) <==> TypeAllows(s, v)
  {
    var m := s.fields;
    EntriesOfType(m);
    NormalisedField(m, "type");
    NormalisedField(m, "nullable");
    if "nullable" in m {
      NormalisedShape(m["nullable"]);
    }
    if "type" in m {
      NormalisedShape(m["type"]);
      if m["type"].Arr? {
        NormalisedTypes(m["type"], v);
      }
    }
  }

  lemma PairMeans(types: seq<Value>, v: Value)
    requires NullablePair(types).Some?
    ensures (exists t | t in types :: t.Str? && IsOfType(t.s, v)) <==> v.Null? || IsOfType(NullablePair(types).value, v)
  {
    assert types == [types[0], types[1]];
    assert forall t | t in types :: t == types[0] || t == types[1];
    assert types[0] in types && types[1] in types;
  }

  lemma NormalisedTypes(types: Value, v: Value)
    requires types.Arr?
    ensures (exists t | t in Normalise(types).items :: t.Str? && IsOfType(t.s, v)) <==>
            (exists t | t in types.items :: t.Str? && IsOfType(t.s, v))
  {
    NormalisedShape(types);
    forall i | 0 <= i < |types.items| {
      NormalisedShape(types.items[i]);
    }
    forall t: Value | t.Str?
      ensures t in Normalise(types).items <==> t in types.items
    {
      if t in types.items {
        var i :| 0 <= i < |types.items| && types.items[i] == t;
        assert Normalise(types).items[i] == t;
      }
    }
  }

  /** What becomes of one side's pair of keys. */
  lemma EntriesOfSide(m: map<string, Value>, plain: string, exclusive: string)
    requires (plain, exclusive) in {("minimum", "exclusiveMinimum"), ("maximum", "exclusiveMaximum")}
    ensures exclusive in m && m[exclusive].Num? && !(plain in m && m[plain].Num?) ==>
              && plain in Entries(m) && Entries(m)[plain] == m[exclusive]
              && exclusive in Entries(m) && Entries(m)[exclusive] == Bool(true)
    ensures !(exclusive in m && m[exclusive].Num? && !(plain in m && m[plain].Num?)) ==>
              && (plain in Entries(m) <==> plain in m) && (exclusive in Entries(m) <==> exclusive in m)
              && (plain in m ==> Entries(m)[plain] == m[plain])
              && (exclusive in m ==> Entries(m)[exclusive] == m[exclusive])
  {
    var n := Local(Nullables, m);
    assert (plain in n <==> plain in m) && (plain in m ==> n[plain] == m[plain]);
    assert (exclusive in n <==> exclusive in m) && (exclusive in m ==> n[exclusive] == m[exclusive]);
    BoundsCommute(n, "exclusiveMinimum", "minimum", "exclusiveMaximum", "maximum");
  }

  lemma SidePart(s: Value, low: bool, plain: string, exclusive: string, r: real)
    requires (plain, exclusive) in {("minimum", "exclusiveMinimum"), ("maximum", "exclusiveMaximum")}
    requires s.Obj? && SideSound(s, low, plain, exclusive)
    ensures SideAllows(Oas30, Normalise(s), low, plain, exclusive, r) <==>
              SideAllows(Oas31, s, low, plain, exclusive, r)
  {
    var m := s.fields;
    EntriesOfSide(m, plain, exclusive);
    NormalisedField(m, plain);
    NormalisedField(m, exclusive);
    if plain in Entries(m) {
      NormalisedShape(Entries(m)[plain]);
    }
    if exclusive in Entries(m) {
      NormalisedShape(Entries(m)[exclusive]);
    }
  }

  lemma BoundsPart(s: Value, v: Value)
    requires s.Obj? && BoundsSound(s)
    ensures BoundsAllow(Oas30, Normalise(s), v) <==> BoundsAllow(Oas31, s, v)
  {
    if v.Num? {
      SidePart(s, true, "minimum", "exclusiveMinimum", AsReal(v.n));
      SidePart(s, false, "maximum", "exclusiveMaximum", AsReal(v.n));
    }
  }

  lemma SizesPart(s: Value, v: Value)
    requires s.Obj?
    ensures SizesAllow(Normalise(s), v) <==> SizesAllow(s, v)
  {
    Elsewhere(s, "minLength");
    Elsewhere(s, "maxLength");
    Elsewhere(s, "minItems");
    Elsewhere(s, "maxItems");
    Elsewhere(s, "uniqueItems");
    Elsewhere(s, "required");
    SameStrings(s.ArrayAt("required"), Normalise(s).ArrayAt("required"));
  }

  lemma {:induction false} SameStrings(a: seq<Value>, b: seq<Value>)
    requires |a| == |b| && forall i | 0 <= i < |a| :: b[i] == Normalise(a[i])
    ensures StringsOf(b) == StringsOf(a)
  {
    if a != [] {
      NormalisedShape(a[0]);
      SameStrings(a[1..], b[1..]);
    }
  }

  /** Normalising changes data exactly when something in it reads like the keywords it rewrites. */
  lemma {:induction false} InertExactly(v: Value)
    ensures Normalise(v) == v <==> Inert(v)
  {
    NormalisedShape(v);
    match v
    case Arr(items) =>
      forall i | 0 <= i < |items|
        ensures Normalise(items[i]) == items[i] <==> Inert(items[i])
      {
        InertExactly(items[i]);
      }
      assert Normalise(v) == v <==> forall i | 0 <= i < |items| :: Normalise(v).items[i] == items[i];
    case Obj(m) =>
      forall k | k in m
        ensures Normalise(m[k]) == m[k] <==> Inert(m[k])
      {
        InertExactly(m[k]);
      }
      ObjectIsFixed(m);
    case _ =>
  }

  lemma ObjectIsFixed(m: map<string, Value>)
    ensures Normalise(Obj(m)) == Obj(m) <==>
              && PairOf(m).None? && !LoneBound(m, "exclusiveMinimum", "minimum")
                  && !LoneBound(m, "exclusiveMaximum", "maximum")
              && forall k | k in m :: Normalise(m[k]) == m[k]
  {
    var n := Normalise(Obj(m));
    EntriesOfType(m);
    EntriesOfSide(m, "minimum", "exclusiveMinimum");
    EntriesOfSide(m, "maximum", "exclusiveMaximum");
    forall k
      ensures n.Obj? && (k in n.fields <==> k in Entries(m))
                && (k in Entries(m) ==> n.fields[k] == Normalise(Entries(m)[k]))
    {
      NormalisedField(m, k);
    }
    if PairOf(m).Some? {
      NormalisedShape(Str(PairOf(m).value));
      assert n.fields["type"] != m["type"];
    } else if LoneBound(m, "exclusiveMinimum", "minimum") {
      NormalisedShape(Bool(true));
      assert n.fields["exclusiveMinimum"] != m["exclusiveMinimum"];
    } else if LoneBound(m, "exclusiveMaximum", "maximum") {
      NormalisedShape(Bool(true));
      assert n.fields["exclusiveMaximum"] != m["exclusiveMaximum"];
    } else {
      assert Local(Nullables, m) == m;
      assert Entries(m) == m;
      assert n == Obj(m) <==> n.fields == m;
    }
  }

  lemma LiteralsPart(s: Value, v: Value)
    requires s.Obj? && (s.HasArr("enum") ==> Inert(s.fields["enum"])) && (s.Has("const") ==> Inert(s.fields["const"]))
    ensures LiteralsAllow(Normalise(s), v) <==> LiteralsAllow(s, v)
  {
    Elsewhere(s, "enum");
    Elsewhere(s, "const");
    if s.HasArr("enum") {
      InertExactly(s.fields["enum"]);
    }
    if s.Has("const") {
      InertExactly(s.fields["const"]);
    }
  }

  /** A sound tree accepts under 3.1 rules exactly what its normal form accepts under 3.0 rules. */
  lemma {:induction false} NormalisingKeepsMeaning(named: (string, Value) -> bool, s: Value, v: Value)
    requires Sound(named, s)
    ensures KeptAt(named, s, v)
    decreases s, 3
  {
    NormalisedShape(s);
    if s.Obj? {
      OthersPart(named, s, v);
      if PairOf(s.fields).Some? {
        PairPart(s, v);
      } else {
        TypePart(s, v);
      }
    }
  }

  lemma {:induction false} OthersPart(named: (string, Value) -> bool, s: Value, v: Value)
    requires s.Obj? && OthersSound(named, s)
    ensures Normalise(s).Obj?
    ensures OthersAllow(Oas31, named, s, v) <==> OthersAllow(Oas30, named, Normalise(s), v)
    decreases s, 2
  {
    NormalisedShape(s);
    BoundsPart(s, v);
    SizesPart(s, v);
    LiteralsPart(s, v);
    Elsewhere(s, "$ref");
    if s.HasStr("$ref") {
      NormalisedShape(s.fields["$ref"]);
    }
    ChildrenPart(named, s, v);
    CompositionsPart(named, s, v);
  }

  /** When all else about a node is sound, its meaning is kept if and only if null is judged alike. */
  lemma NullDecides(named: (string, Value) -> bool, s: Value)
    requires s.Obj? && OthersSound(named, s)
    ensures KeepsMeaning(named, s) <==> NullableSound(named, s)
  {
    if NullableSound(named, s) {
      forall v
        ensures KeptAt(named, s, v)
      {
        NormalisingKeepsMeaning(named, s, v);
      }
    } else {
      NullIsMisjudged(named, s);
    }
  }

  lemma NullIsMisjudged(named: (string, Value) -> bool, s: Value)
    requires s.Obj? && OthersSound(named, s) && !NullableSound(named, s)
    ensures !KeptAt(named, s, Null)
  {
    NormalisedShape(s);
    OthersPart(named, s, Null);
    if PairOf(s.fields).Some? {
      PairPart(s, Null);
    } else {
      TypePart(s, Null);
    }
  }

  lemma {:induction false} ChildrenPart(named: (string, Value) -> bool, s: Value, v: Value)
    requires s.Obj? && OthersSound(named, s)
    ensures Normalise(s).Obj?
    ensures ChildrenAllow(Oas31, named, s, v) <==> ChildrenAllow(Oas30, named, Normalise(s), v)
    decreases s, 1
  {
    var n := Normalise(s);
    SchemasElsewhere(s, "properties");
    Elsewhere(s, "additionalProperties");
    Elsewhere(s, "items");
    Elsewhere(s, "prefixItems");
    var props := s.ObjectAt("properties");
    if v.Obj? {
      forall k | k in props && k in v.fields
        ensures Valid(Oas31, named, props[k], v.fields[k]) <==>
                  Valid(Oas30, named, n.ObjectAt("properties")[k], v.fields[k])
      {
        NormalisingKeepsMeaning(named, props[k], v.fields[k]);
      }
      if s.Has("additionalProperties") {
        forall k | k in v.fields
          ensures Valid(Oas31, named, s.fields["additionalProperties"], v.fields[k]) <==>
                  Valid(Oas30, named, n.fields["additionalProperties"], v.fields[k])
        {
          NormalisingKeepsMeaning(named, s.fields["additionalProperties"], v.fields[k]);
        }
      }
    }
    if v.Arr? {
      var prefix := s.ArrayAt("prefixItems");
      forall i | 0 <= i < |prefix| && i < |v.items|
        ensures Valid(Oas31, named, prefix[i], v.items[i]) <==>
                  Valid(Oas30, named, n.ArrayAt("prefixItems")[i], v.items[i])
      {
        assert prefix[i] in s.ArrayAt("prefixItems");
        NormalisingKeepsMeaning(named, prefix[i], v.items[i]);
      }
      if s.Has("items") {
        forall i | 0 <= i < |v.items|
          ensures Valid(Oas31, named, s.fields["items"], v.items[i]) <==>
                    Valid(Oas30, named, n.fields["items"], v.items[i])
        {
          NormalisingKeepsMeaning(named, s.fields["items"], v.items[i]);
        }
      }
    }
  }

  lemma {:induction false} CompositionsPart(named: (string, Value) -> bool, s: Value, v: Value)
    requires s.Obj? && OthersSound(named, s)
    ensures Normalise(s).Obj?
    ensures CompositionsAllow(Oas31, named, s, v) <==> CompositionsAllow(Oas30, named, Normalise(s), v)
    decreases s, 1
  {
    HoldingPart(named, s, "allOf", v);
    HoldingPart(named, s, "anyOf", v);
    HoldingPart(named, s, "oneOf", v);
    Elsewhere(s, "not");
    if s.Has("not") {
      NormalisingKeepsMeaning(named, s.fields["not"], v);
    }
  }

  lemma {:induction false} HoldingPart(named: (string, Value) -> bool, s: Value, key: string, v: Value)
    requires s.Obj? && OthersSound(named, s) && key in {"allOf", "anyOf", "oneOf"}
    ensures Normalise(s).Obj?
    ensures Holding(Oas31, named, s, key, v) == Holding(Oas30, named, Normalise(s), key, v)
    ensures Normalise(s).HasArr(key) <==> s.HasArr(key)
    ensures |Normalise(s).ArrayAt(key)| == |s.ArrayAt(key)|
    decreases s, 0
  {
    Elsewhere(s, key);
    forall i: nat | i < |s.ArrayAt(key)|
      ensures Valid(Oas31, named, s.ArrayAt(key)[i], v) <==> Valid(Oas30, named, Normalise(s).ArrayAt(key)[i], v)
    {
      assert s.ArrayAt(key)[i] in s.ArrayAt(key);
      NormalisingKeepsMeaning(named, s.ArrayAt(key)[i], v);
    }
  }

  // ---- why the trees must be sound ----

  /** Of these keywords none is asserted. */
  lemma Bare(d: Dialect, named: (string, Value) -> bool, s: Value, v: Value)
    requires s.Obj?
    requires s.fields.Keys <= {"type", "nullable", "enum", "const", "minimum", "maximum", "exclusiveMinimum",
                               "exclusiveMaximum"}
    ensures SizesAllow(s, v) && !s.HasStr("$ref")
    ensures ChildrenAllow(d, named, s, v) && CompositionsAllow(d, named, s, v)
  {
    assert !s.Has("$ref") && !s.Has("not") && !s.Has("allOf") && !s.Has("anyOf") && !s.Has("oneOf");
    BareSizes(s, v);
  }

  lemma BareSizes(s: Value, v: Value)
    requires s.Obj?
    requires s.fields.Keys <= {"type", "nullable", "enum", "const", "minimum", "maximum", "exclusiveMinimum",
                               "exclusiveMaximum"}
    ensures SizesAllow(s, v)
  {
  }

  /** Only bounds are asserted, so only they decide. */
  lemma OnlyBounds(d: Dialect, named: (string, Value) -> bool, s: Value, v: Value)
    requires s.Obj? && s.fields.Keys <= {"minimum", "maximum", "exclusiveMinimum", "exclusiveMaximum"}
    ensures Valid(d, named, s, v) <==> BoundsAllow(d, s, v)
  {
    Bare(d, named, s, v);
    assert !s.Has("type") && !s.Has("nullable") && !s.Has("enum") && !s.Has("const");
  }

  /** Normalising leaves the verdict of one side's bounds on a number as it was. */
  ghost predicate SideKept(s: Value, low: bool, plain: string, exclusive: string, r: real)
    requires s.Obj?
  {
    SideAllows(Oas30, Normalise(s), low, plain, exclusive, r) <==> SideAllows(Oas31, s, low, plain, exclusive, r)
  }

  /** On any node, either side's bounds keep their meaning if and only if they are sound. */
  lemma SideExactly(s: Value, low: bool, plain: string, exclusive: string)
    requires (plain, exclusive) in {("minimum", "exclusiveMinimum"), ("maximum", "exclusiveMaximum")} && s.Obj?
    ensures (forall r :: SideKept(s, low, plain, exclusive, r)) <==> SideSound(s, low, plain, exclusive)
  {
    if SideSound(s, low, plain, exclusive) {
      forall r
        ensures SideKept(s, low, plain, exclusive, r)
      {
        SidePart(s, low, plain, exclusive, r);
      }
    } else {
      SideMisjudged(s, low, plain, exclusive);
    }
  }

  /**
   * The number at which an unsound side goes wrong: the exclusive bound, or the plain one when it carries a 3.0 flag.
   */
  lemma SideMisjudged(s: Value, low: bool, plain: string, exclusive: string)
    requires (plain, exclusive) in {("minimum", "exclusiveMinimum"), ("maximum", "exclusiveMaximum")}
    requires s.Obj? && !SideSound(s, low, plain, exclusive)
    ensures !SideKept(s, low, plain, exclusive, NumAt(s, if HasNum(s, exclusive) then exclusive else plain))
  {
    var m := s.fields;
    EntriesOfSide(m, plain, exclusive);
    NormalisedField(m, plain);
    NormalisedField(m, exclusive);
    NormalisedShape(m[plain]);
    NormalisedShape(m[exclusive]);
  }

  /**
   * Where a node asserts nothing but the bounds of one side, its meaning is kept if and only if they are sound: with
   * both a plain and an exclusive number, if and only if the plain one implies the exclusive one.
   */
  lemma BothBounds(named: (string, Value) -> bool, s: Value, low: bool, plain: string, exclusive: string)
    requires (low, plain, exclusive) in {(true, "minimum", "exclusiveMinimum"), (false, "maximum", "exclusiveMaximum")}
    requires s.Obj? && s.fields.Keys <= {plain, exclusive}
    ensures KeepsMeaning(named, s) <==> SideSound(s, low, plain, exclusive)
  {
    if SideSound(s, low, plain, exclusive) {
      forall v
        ensures KeptAt(named, s, v)
      {
        OneSideMeans(named, s, low, plain, exclusive, v);
        if v.Num? {
          SidePart(s, low, plain, exclusive, AsReal(v.n));
        }
      }
    } else {
      var r := NumAt(s, if HasNum(s, exclusive) then exclusive else plain);
      SideMisjudged(s, low, plain, exclusive);
      OneSideMeans(named, s, low, plain, exclusive, Num(Fraction(r)));
      assert !KeptAt(named, s, Num(Fraction(r)));
    }
  }

  lemma OneSideMeans(named: (string, Value) -> bool, s: Value, low: bool, plain: string, exclusive: string, v: Value)
    requires (low, plain, exclusive) in {(true, "minimum", "exclusiveMinimum"), (false, "maximum", "exclusiveMaximum")}
    requires s.Obj? && s.fields.Keys <= {plain, exclusive}
    ensures KeptAt(named, s, v) <==> v.Num? ==> SideKept(s, low, plain, exclusive, AsReal(v.n))
  {
    OneSideStays(s, plain, exclusive);
    OnlyBounds(Oas31, named, s, v);
    OnlyBounds(Oas30, named, Normalise(s), v);
  }

  lemma OneSideStays(s: Value, plain: string, exclusive: string)
    requires (plain, exclusive) in {("minimum", "exclusiveMinimum"), ("maximum", "exclusiveMaximum")}
    requires s.Obj? && s.fields.Keys <= {plain, exclusive}
    ensures Normalise(s).Obj? && Normalise(s).fields.Keys <= {plain, exclusive}
  {
    var m := s.fields;
    assert PairOf(m).None?;
    assert Entries(m).Keys <= {plain, exclusive};
    forall k
      ensures Normalise(s).Obj? && (k in Normalise(s).fields <==> k in Entries(m))
    {
      NormalisedField(m, k);
    }
  }

  // ---- literals ----

  /** Only literals are asserted, so only they decide. */
  lemma OnlyLiterals(d: Dialect, named: (string, Value) -> bool, s: Value, v: Value)
    requires s.Obj? && s.fields.Keys <= {"enum", "const"}
    ensures Valid(d, named, s, v) <==> LiteralsAllow(s, v)
  {
    Bare(d, named, s, v);
    assert !s.Has("type") && !s.Has("nullable");
    BareBounds(d, s, v);
  }

  lemma BareBounds(d: Dialect, s: Value, v: Value)
    requires s.Obj? && s.fields.Keys <= {"type", "nullable", "enum", "const"}
    ensures BoundsAllow(d, s, v)
  {
  }

  lemma LiteralsStay(s: Value)
    requires s.Obj? && s.fields.Keys <= {"enum", "const"}
    ensures Normalise(s).Obj? && Normalise(s).fields.Keys == s.fields.Keys
  {
    var m := s.fields;
    assert "type" !in m && "exclusiveMinimum" !in m && "exclusiveMaximum" !in m;
    assert Entries(m) == m;
    forall k
      ensures Normalise(s).Obj? && (k in Normalise(s).fields <==> k in m)
    {
      NormalisedField(m, k);
    }
  }

  /** The passes look inside literal data too: a constant keeps its meaning if and only if it is inert. */
  lemma ConstantIsRewritten(named: (string, Value) -> bool, data: Value)
    ensures var s := Obj(map["const" := data]);
            KeepsMeaning(named, s) <==> Inert(data)
  {
    var s := Obj(map["const" := data]);
    LiteralsStay(s);
    Elsewhere(s, "const");
    InertExactly(data);
    forall v
      ensures KeptAt(named, s, v) <==> (v == data <==> v == Normalise(data))
    {
      OnlyLiterals(Oas31, named, s, v);
      OnlyLiterals(Oas30, named, Normalise(s), v);
    }
    if Normalise(data) != data {
      assert !KeptAt(named, s, data);
    }
  }

  lemma ListedAfter(items: seq<Value>, v: Value)
    ensures Normalise(Arr(items)).Arr?
    ensures v in Normalise(Arr(items)).items <==> exists i | 0 <= i < |items| :: Normalise(items[i]) == v
  {
    NormalisedShape(Arr(items));
    var after := Normalise(Arr(items)).items;
    if v in after {
      var i :| 0 <= i < |after| && after[i] == v;
      assert Normalise(items[i]) == v;
    }
    if exists i | 0 <= i < |items| :: Normalise(items[i]) == v {
      var i :| 0 <= i < |items| && Normalise(items[i]) == v;
      assert after[i] == v;
    }
  }

  /** A value listed by an array and its normal form alike is inert, being a normal form itself. */
  lemma ListedIsInert(items: seq<Value>, v: Value)
    requires v in Normalise(Arr(items)).items
    ensures Inert(v)
  {
    ListedAfter(items, v);
    var i :| 0 <= i < |items| && Normalise(items[i]) == v;
    NormaliseTwice(items[i]);
    InertExactly(v);
  }

  /**
   * Where the listed values of a kind the passes keep are inert, array and normal form list the same ones of that kind.
   */
  lemma InertIsListed(items: seq<Value>, kind: Value -> bool, v: Value)
    requires forall x :: kind(Normalise(x)) == kind(x)
    requires forall x | x in items && kind(x) :: Inert(x)
    requires kind(v)
    ensures v in items <==> v in Normalise(Arr(items)).items
  {
    ListedAfter(items, v);
    if v in items {
      var i :| 0 <= i < |items| && items[i] == v;
      InertExactly(v);
      assert Normalise(items[i]) == v;
    } else if v in Normalise(Arr(items)).items {
      var i :| 0 <= i < |items| && Normalise(items[i]) == v;
      assert kind(items[i]) && items[i] in items;
      InertExactly(items[i]);
    }
  }

  /** Likewise an enumeration keeps its meaning if and only if every value it lists is inert. */
  lemma EnumerationIsRewritten(named: (string, Value) -> bool, options: seq<Value>)
    ensures var s := Obj(map["enum" := Arr(options)]);
            KeepsMeaning(named, s) <==>
              forall x | x in options :: Inert(x)
  {
    var s := Obj(map["enum" := Arr(options)]);
    var any := (v: Value) => true;
    assert forall v: Value :: any(v);
    if KeepsMeaning(named, s) {
      forall x | x in options
        ensures Inert(x)
      {
        assert KeptAt(named, s, x);
        EnumerationMeans(named, options, x);
        ListedIsInert(options, x);
      }
    }
    if forall x | x in options :: Inert(x) {
      forall v
        ensures KeptAt(named, s, v)
      {
        EnumerationMeans(named, options, v);
        InertIsListed(options, any, v);
      }
    }
  }

  lemma EnumerationMeans(named: (string, Value) -> bool, options: seq<Value>, v: Value)
    ensures var s := Obj(map["enum" := Arr(options)]);
            && (Valid(Oas31, named, s, v) <==> v in options)
            && (Valid(Oas30, named, Normalise(s), v) <==> v in Normalise(Arr(options)).items)
  {
    var s := Obj(map["enum" := Arr(options)]);
    LiteralsStay(s);
    Elsewhere(s, "enum");
    OnlyLiterals(Oas31, named, s, v);
    OnlyLiterals(Oas30, named, Normalise(s), v);
  }

  function PairAndEnum(t: string, options: seq<Value>): map<string, Value> {
    map["type" := Arr([Str(t), Str("null")]), "enum" := Arr(options)]
  }

  lemma PairAndEnumStays(t: string, options: seq<Value>)
    requires t != "null"
    ensures var n := Normalise(Obj(PairAndEnum(t, options)));
            && n.Obj? && n.fields.Keys == {"type", "enum", "nullable"}
            && n.fields["type"] == Str(t) && n.fields["nullable"] == Bool(true)
            && n.fields["enum"] == Normalise(Arr(options))
  {
    var m := PairAndEnum(t, options);
    var n := Normalise(Obj(m));
    assert m.Keys == {"type", "enum"};
    assert PairOf(m) == Some(t);
    EntriesOfType(m);
    EntriesElsewhere(m, "enum");
    NormalisedShape(Str(t));
    NormalisedShape(Bool(true));
    assert Entries(m).Keys == {"type", "enum", "nullable"};
    forall k
      ensures n.Obj? && (k in n.fields <==> k in Entries(m))
      ensures k in Entries(m) ==> n.fields[k] == Normalise(Entries(m)[k])
    {
      NormalisedField(m, k);
    }
  }

  lemma PairAndEnumMeans(named: (string, Value) -> bool, t: string, options: seq<Value>, v: Value)
    requires t != "null"
    ensures var s := Obj(PairAndEnum(t, options));
            && (Valid(Oas31, named, s, v) <==> (v.Null? || IsOfType(t, v)) && v in options)
            && (Valid(Oas30, named, Normalise(s), v) <==>
                v.Null? || (IsOfType(t, v) && v in Normalise(Arr(options)).items))
  {
    var s := Obj(PairAndEnum(t, options));
    var n := Normalise(s);
    assert s.fields.Keys == {"type", "enum"};
    PairAndEnumStays(t, options);
    NormalisedShape(Arr(options));
    OnlyTypeAndLiterals(Oas31, named, s, v);
    OnlyTypeAndLiterals(Oas30, named, n, v);
    PairTypeMeans(s, t, v);
  }

  lemma PairTypeMeans(s: Value, t: string, v: Value)
    requires t != "null" && s.Has("type") && s.fields["type"] == Arr([Str(t), Str("null")])
    ensures TypeAllows(s, v) <==> v.Null? || IsOfType(t, v)
  {
    PairMeans([Str(t), Str("null")], v);
  }

  lemma OnlyTypeAndLiterals(d: Dialect, named: (string, Value) -> bool, s: Value, v: Value)
    requires s.Obj? && s.fields.Keys <= {"type", "nullable", "enum"}
    ensures OthersAllow(d, named, s, v) <==> LiteralsAllow(s, v)
  {
    Bare(d, named, s, v);
    BareBounds(d, s, v);
  }

  /**
   * A nullable pair beside an enumeration accepts null once normalised, listed or not; so the meaning is kept if and
   * only if null is listed and the listed values of the other type are inert.
   */
  lemma PairBesideEnum(named: (string, Value) -> bool, t: string, options: seq<Value>)
    requires t != "null"
    ensures var s := Obj(PairAndEnum(t, options));
            KeepsMeaning(named, s) <==>
              Null in options && forall x | x in options && IsOfType(t, x) :: Inert(x)
  {
    var s := Obj(PairAndEnum(t, options));
    var after := Normalise(Arr(options)).items;
    if KeepsMeaning(named, s) {
      assert KeptAt(named, s, Null);
      PairAndEnumMeans(named, t, options, Null);
      forall x | x in options && IsOfType(t, x)
        ensures Inert(x)
      {
        assert KeptAt(named, s, x);
        PairAndEnumMeans(named, t, options, x);
        NotTheNullType(t);
        ListedIsInert(options, x);
      }
    }
    if Null in options && forall x | x in options && IsOfType(t, x) :: Inert(x) {
      forall v
        ensures KeptAt(named, s, v)
      {
        PairAndEnumMeans(named, t, options, v);
        if IsOfType(t, v) {
          TypesAreKept(t);
          InertIsListed(options, x => IsOfType(t, x), v);
        }
      }
    }
  }

  lemma TypesAreKept(t: string)
    ensures forall x :: IsOfType(t, Normalise(x)) == IsOfType(t, x)
  {
    forall x
      ensures IsOfType(t, Normalise(x)) == IsOfType(t, x)
    {
      NormalisedShape(x);
    }
  }

  // ---- boolean items ----

  predicate RefusesExtraItems(s: Value) {
    s.Has("prefixItems") && s.Has("items") && s.fields["items"] == Bool(false)
  }

  /** Dropping a boolean `items` beside `prefixItems` lets through exactly the arrays it refused for being too long. */
  lemma DroppingItems(d: Dialect, named: (string, Value) -> bool, s: Value, v: Value)
    requires s.Obj?
    ensures Valid(d, named, s, v) <==>
              && Valid(d, named, Obj(Local(BooleanItems, s.fields)), v)
              && !(RefusesExtraItems(s) && v.Arr? && |s.ArrayAt("prefixItems")| < |v.items|)
  {
    var n := Obj(Local(BooleanItems, s.fields));
    assert SameBut("items", s, n);
    DroppingFromChildren(d, named, s, n, v);
    SameCompositions(d, named, s, n, v);
    SameTypeAndSizes(d, s, n, v);
  }

  lemma SameTypeAndSizes(d: Dialect, s: Value, n: Value, v: Value)
    requires s.Obj? && n.Obj? && SameBut("items", s, n)
    ensures Flag(s, "nullable") == Flag(n, "nullable")
    ensures TypeAllows(s, v) == TypeAllows(n, v) && BoundsAllow(d, s, v) == BoundsAllow(d, n, v)
    ensures SizesAllow(s, v) == SizesAllow(n, v) && LiteralsAllow(s, v) == LiteralsAllow(n, v)
  {
    assert s.ArrayAt("required") == n.ArrayAt("required");
  }

  lemma DroppingFromChildren(d: Dialect, named: (string, Value) -> bool, s: Value, n: Value, v: Value)
    requires s.Obj? && n == Obj(Local(BooleanItems, s.fields))
    ensures ChildrenAllow(d, named, s, v) <==>
              && ChildrenAllow(d, named, n, v)
              && !(RefusesExtraItems(s) && v.Arr? && |s.ArrayAt("prefixItems")| < |v.items|)
  {
    assert s.ObjectAt("properties") == n.ObjectAt("properties") && s.ArrayAt("prefixItems") == n.ArrayAt("prefixItems");
    if v.Arr? && s.Has("items") && s.fields["items"].Bool? && |s.ArrayAt("prefixItems")| < |v.items| {
      var i := |s.ArrayAt("prefixItems")|;
      assert Valid(d, named, s.fields["items"], v.items[i]) == s.fields["items"].b;
    }
  }

  ghost predicate SameBut(key: string, s: Value, n: Value) {
    forall k | k != key :: n.Has(k) == s.Has(k) && (s.Has(k) ==> n.fields[k] == s.fields[k])
  }

  lemma SameCompositions(d: Dialect, named: (string, Value) -> bool, s: Value, n: Value, v: Value)
    requires s.Obj? && n.Obj? && SameBut("items", s, n)
    ensures CompositionsAllow(d, named, s, v) == CompositionsAllow(d, named, n, v)
    ensures s.HasStr("$ref") == n.HasStr("$ref") && (s.HasStr("$ref") ==> s.fields["$ref"] == n.fields["$ref"])
  {
    SameHolding(d, named, s, n, "allOf", v);
    SameHolding(d, named, s, n, "anyOf", v);
    SameHolding(d, named, s, n, "oneOf", v);
    assert n.Has("not") == s.Has("not");
  }

  lemma SameHolding(d: Dialect, named: (string, Value) -> bool, s: Value, n: Value, key: string, v: Value)
    requires s.Obj? && n.Obj? && s.ArrayAt(key) == n.ArrayAt(key)
    ensures Holding(d, named, s, key, v) == Holding(d, named, n, key, v)
  {
  }
}
