/** What the leniency of `allOf` lets through: exactly the values in which some closed object is masked. */
module Forgiveness {
  import opened Strings
  import opened Json
  import opened Schemas
  import opened Validator
  import opened Acceptance

  // ---- where a closed object is masked ----

  /** A closed object holds an undeclared key whose last dotted part is newly forgiven. */
  predicate MaskedKey(properties: seq<Property>, additional: Additional, v: Value, base: set<string>,
                      extra: set<string>)
    requires v.Obj?
  {
    && additional == Permitted(false)
    && exists key | key in v.fields ::
         !Declares(properties, key) && LastSegment(key) in extra && LastSegment(key) !in base
  }

  /**
   * Somewhere a walk from `schema` and `v` through declared properties, additional properties, items, discriminated
   * branches and branches of nested `allOf`s comes to a masked key. On its way into an object-shaped branch of an
   * `allOf` it adds what the siblings declare to the names that are forgiven anyway.
   */
  ghost predicate Masks(spec: Spec, schema: Schema, v: Value, base: set<string>, extra: set<string>)
    requires Founded(spec)
    decreases v, Order(spec, schema), 2
  {
    && !(v.Null? && schema.nullable)
    && match schema.kind
       case ObjectType(_, _, _) => v.Obj? && ObjectMasks(spec, schema.kind, v, base, extra)
       case ArrayType(items, _, _, _) =>
         && v.Arr? && items.Some? && ResolveSchema(spec, items.value).Some?
         && exists i | 0 <= i < |v.items| ::
             Masks(spec, ResolveSchema(spec, items.value).value, v.items[i], base, extra)
       case OneOf(branches) =>
         && Named(spec, schema, v).Some?
         && (NamedIsLower(spec, schema, v);
             Masks(spec, Named(spec, schema, v).value, v, base, extra))
       case AllOf(branches) => BranchesMask(spec, branches, Declared(spec, branches), v, base, extra)
       case AnyType(_, _, _, _, _, _, properties) => v.Obj? && PropertiesMask(spec, properties, v, base, extra)
       case _ => false
  }

  ghost predicate ObjectMasks(spec: Spec, k: Kind, v: Value, base: set<string>, extra: set<string>)
    requires Founded(spec) && k.ObjectType? && v.Obj?
    decreases v, 0, 1
  {
    || MaskedKey(k.properties, k.additional, v, base, extra)
    || PropertiesMask(spec, k.properties, v, base, extra)
    || (&& k.additional.Constrained? && ResolveSchema(spec, k.additional.schema).Some?
        && exists key | key in v.fields && !Declares(k.properties, key) ::
             Masks(spec, ResolveSchema(spec, k.additional.schema).value, v.fields[key], base, extra))
  }

  ghost predicate PropertiesMask(spec: Spec, properties: seq<Property>, v: Value, base: set<string>, extra: set<string>)
    requires Founded(spec) && v.Obj?
    decreases v, 0, 0
  {
    exists p | p in properties && p.name in v.fields && ResolveSchema(spec, p.schema).Some? ::
      Masks(spec, ResolveSchema(spec, p.schema).value, v.fields[p.name], base, extra)
  }

  ghost predicate BranchesMask(spec: Spec, branches: seq<SchemaRef>, union: set<string>, v: Value,
                               base: set<string>, extra: set<string>)
    requires Founded(spec)
    decreases v, BranchesLevel(RankOf(spec), branches), 3, |branches|
  {
    branches != [] &&
    (BranchLevel(spec, branches, 0);
     var sub := ResolveSchema(spec, branches[0]);
     || (sub.Some? && Masks(spec, sub.value, v, if Lenient(sub.value) then union + base else base, extra))
     || BranchesMask(spec, branches[1..], union, v, base, extra))
  }

  // ---- forgiving more ----

  /** Forgiving more names lets through exactly the values in which those names mask a key. */
  lemma {:induction false} ForgivingMore(spec: Spec, schema: Schema, v: Value, base: set<string>, extra: set<string>)
    requires Founded(spec)
    ensures Accepts(spec, schema, v, base) <==>
              Accepts(spec, schema, v, base + extra) && !Masks(spec, schema, v, base, extra)
    decreases v, Order(spec, schema), 2, 0
  {
    if !(v.Null? && schema.nullable) {
      match schema.kind
      case ObjectType(_, _, _) => ObjectForgivingMore(spec, schema.kind, v, base, extra);
      case ArrayType(_, _, _, _) => ArrayForgivingMore(spec, schema, v, base, extra);
      case OneOf(branches) =>
        if Named(spec, schema, v).Some? {
          NamedIsLower(spec, schema, v);
          ForgivingMore(spec, Named(spec, schema, v).value, v, base, extra);
        }
      case AllOf(branches) => BranchesForgivingMore(spec, branches, Declared(spec, branches), v, base, extra);
      case AnyType(_, _, _, _, _, _, properties) =>
        if v.Obj? {
          PropertiesForgivingMore(spec, properties, v, base, extra);
        }
        assert AnyAccepts(spec, schema, v, base) <==>
               && AnyAccepts(spec, schema, v, base + extra)
               && !(v.Obj? && PropertiesMask(spec, properties, v, base, extra));
      case _ =>
    }
  }

  lemma {:induction false} ArrayForgivingMore(spec: Spec, schema: Schema, v: Value, base: set<string>,
                                              extra: set<string>)
    requires Founded(spec) && schema.kind.ArrayType? && !(v.Null? && schema.nullable)
    ensures ArrayAccepts(spec, schema.kind, v, base) <==>
              ArrayAccepts(spec, schema.kind, v, base + extra) && !Masks(spec, schema, v, base, extra)
    decreases v, 0, 1, 0
  {
    var k := schema.kind;
    if v.Arr? && k.items.Some? && ResolveSchema(spec, k.items.value).Some? {
      var item := ResolveSchema(spec, k.items.value).value;
      forall i | 0 <= i < |v.items|
        ensures Accepts(spec, item, v.items[i], base) <==>
                Accepts(spec, item, v.items[i], base + extra) && !Masks(spec, item, v.items[i], base, extra)
      {
        ForgivingMore(spec, item, v.items[i], base, extra);
      }
    }
  }

  lemma {:induction false} PropertiesForgivingMore(spec: Spec, properties: seq<Property>, v: Value,
                                                   base: set<string>, extra: set<string>)
    requires Founded(spec) && v.Obj?
    ensures PropertiesAccept(spec, properties, v, base) <==>
              PropertiesAccept(spec, properties, v, base + extra) && !PropertiesMask(spec, properties, v, base, extra)
    decreases v, 0, 0, 0
  {
    forall p | p in properties && p.name in v.fields && ResolveSchema(spec, p.schema).Some?
      ensures var sub := ResolveSchema(spec, p.schema).value;
              Accepts(spec, sub, v.fields[p.name], base) <==>
                Accepts(spec, sub, v.fields[p.name], base + extra) && !Masks(spec, sub, v.fields[p.name], base, extra)
    {
      ForgivingMore(spec, ResolveSchema(spec, p.schema).value, v.fields[p.name], base, extra);
    }
  }

  lemma {:induction false} ObjectForgivingMore(spec: Spec, k: Kind, v: Value, base: set<string>, extra: set<string>)
    requires Founded(spec) && k.ObjectType?
    ensures ObjectAccepts(spec, k, v, base) <==>
              ObjectAccepts(spec, k, v, base + extra) && !(v.Obj? && ObjectMasks(spec, k, v, base, extra))
    decreases v, 0, 1, 0
  {
    if v.Obj? {
      PropertiesForgivingMore(spec, k.properties, v, base, extra);
      if k.additional.Constrained? && ResolveSchema(spec, k.additional.schema).Some? {
        var sub := ResolveSchema(spec, k.additional.schema).value;
        forall key | key in v.fields
          ensures Accepts(spec, sub, v.fields[key], base) <==>
                  Accepts(spec, sub, v.fields[key], base + extra) && !Masks(spec, sub, v.fields[key], base, extra)
        {
          ForgivingMore(spec, sub, v.fields[key], base, extra);
        }
      }
    }
  }

  lemma {:induction false} BranchesForgivingMore(spec: Spec, branches: seq<SchemaRef>, union: set<string>, v: Value,
                                                 base: set<string>, extra: set<string>)
    requires Founded(spec)
    ensures AllAccept(spec, branches, union, v, base) <==>
              AllAccept(spec, branches, union, v, base + extra) && !BranchesMask(spec, branches, union, v, base, extra)
    decreases v, BranchesLevel(RankOf(spec), branches), 3, |branches|
  {
    if branches != [] {
      BranchLevel(spec, branches, 0);
      BranchesForgivingMore(spec, branches[1..], union, v, base, extra);
      var sub := ResolveSchema(spec, branches[0]);
      if sub.Some? {
        assert (union + base) + extra == union + (base + extra);
        ForgivingMore(spec, sub.value, v, if Lenient(sub.value) then union + base else base, extra);
      }
    }
  }

  // ---- what that makes of `allOf` ----

  /** An object-shaped branch masks a key that only some sibling declares. */
  ghost predicate SomeBranchMasks(spec: Spec, branches: seq<SchemaRef>, union: set<string>, v: Value)
    requires Founded(spec)
  {
    exists i | 0 <= i < |branches| && ResolveSchema(spec, branches[i]).Some? ::
      var sub := ResolveSchema(spec, branches[i]).value;
      Lenient(sub) && Masks(spec, sub, v, {}, union)
  }

  /** Every branch that resolves accepts on its own, as JSON Schema has it. */
  ghost predicate AllHit(spec: Spec, branches: seq<SchemaRef>, v: Value)
    requires Founded(spec)
  {
    forall i | 0 <= i < |branches| && ResolveSchema(spec, branches[i]).Some? :: Hits(spec, branches, i, v)
  }

  /** `allOf` accepts beyond what its branches accept on their own exactly the values in which a branch masks a key. */
  lemma {:induction false} AllOfIsExact(spec: Spec, branches: seq<SchemaRef>, union: set<string>, v: Value)
    requires Founded(spec)
    ensures AllHit(spec, branches, v) <==>
              AllAccept(spec, branches, union, v, {}) && !SomeBranchMasks(spec, branches, union, v)
    decreases |branches|
  {
    if branches != [] {
      var rest := branches[1..];
      AllOfIsExact(spec, rest, union, v);
      AllHitStep(spec, branches, v);
      SomeMasksStep(spec, branches, union, v);
      var sub := ResolveSchema(spec, branches[0]);
      if sub.Some? {
        assert {} + union == union && union + {} == union;
        ForgivingMore(spec, sub.value, v, {}, union);
      }
    }
  }

  lemma AllHitStep(spec: Spec, branches: seq<SchemaRef>, v: Value)
    requires Founded(spec) && branches != []
    ensures AllHit(spec, branches, v) <==>
              && (ResolveSchema(spec, branches[0]).Some? ==>
                  Accepts(spec, ResolveSchema(spec, branches[0]).value, v, {}))
              && AllHit(spec, branches[1..], v)
  {
    var rest := branches[1..];
    forall i: nat | i < |rest|
      ensures rest[i] == branches[i + 1] && Hits(spec, rest, i, v) == Hits(spec, branches, i + 1, v)
    {
    }
    assert Hits(spec, branches, 0, v) <==>
           ResolveSchema(spec, branches[0]).Some? && Accepts(spec, ResolveSchema(spec, branches[0]).value, v, {});
    if AllHit(spec, branches, v) {
      forall i | 0 <= i < |rest| && ResolveSchema(spec, rest[i]).Some?
        ensures Hits(spec, rest, i, v)
      {
        assert Hits(spec, branches, i + 1, v);
      }
    }
    if AllHit(spec, rest, v) {
      forall i | 0 < i < |branches| && ResolveSchema(spec, branches[i]).Some?
        ensures Hits(spec, branches, i, v)
      {
        assert Hits(spec, rest, i - 1, v);
      }
    }
  }

  lemma SomeMasksStep(spec: Spec, branches: seq<SchemaRef>, union: set<string>, v: Value)
    requires Founded(spec) && branches != []
    ensures SomeBranchMasks(spec, branches, union, v) <==>
              || (var sub := ResolveSchema(spec, branches[0]);
                  sub.Some? && Lenient(sub.value) && Masks(spec, sub.value, v, {}, union))
              || SomeBranchMasks(spec, branches[1..], union, v)
  {
    var rest := branches[1..];
    forall i: nat | i < |rest|
      ensures rest[i] == branches[i + 1]
    {
    }
    if SomeBranchMasks(spec, branches, union, v) {
      var i :| 0 <= i < |branches| && ResolveSchema(spec, branches[i]).Some? &&
               (var sub := ResolveSchema(spec, branches[i]).value; Lenient(sub) && Masks(spec, sub, v, {}, union));
      assert 0 < i ==> rest[i - 1] == branches[i];
    }
  }

  // ---- what the filter is meant for ----

  predicate Closed(schema: Schema) {
    schema.kind.ObjectType? && schema.kind.additional == Permitted(false)
  }

  /**
   * A closed branch as it is meant beside its siblings: on its own, but for the keys they declare of the value itself.
   */
  ghost predicate AcceptsBeside(spec: Spec, schema: Schema, v: Value, union: set<string>)
    requires Founded(spec)
  {
    if Closed(schema) then
      || (v.Null? && schema.nullable)
      || (&& v.Obj?
          && (forall name | name in schema.kind.required :: name in v.fields)
          && PropertiesAccept(spec, schema.kind.properties, v, {})
          && forall key | key in v.fields :: Declares(schema.kind.properties, key) || key in union)
    else Accepts(spec, schema, v, {})
  }

  /** A key further down is masked. */
  ghost predicate MasksBelow(spec: Spec, schema: Schema, v: Value, union: set<string>)
    requires Founded(spec)
  {
    if Closed(schema) then v.Obj? && PropertiesMask(spec, schema.kind.properties, v, {}, union)
    else Masks(spec, schema, v, {}, union)
  }

  /** The undeclared keys of a closed branch are known to the siblings, by the whole key or by its last dotted part. */
  predicate WholeKeysKnown(schema: Schema, v: Value, union: set<string>) {
    Closed(schema) && v.Obj? ==> forall key | key in v.fields && !Declares(schema.kind.properties, key) :: key in union
  }

  predicate LastPartsKnown(schema: Schema, v: Value, union: set<string>) {
    Closed(schema) && v.Obj? ==>
      forall key | key in v.fields && !Declares(schema.kind.properties, key) :: LastSegment(key) in union
  }

  /** The code goes by the last part of a key where the whole key is meant, and reaches further down than meant. */
  lemma BesideIsExact(spec: Spec, schema: Schema, v: Value, union: set<string>)
    requires Founded(spec) && Lenient(schema)
    ensures AcceptsBeside(spec, schema, v, union) && LastPartsKnown(schema, v, union) <==>
              && Accepts(spec, schema, v, union) && !MasksBelow(spec, schema, v, union)
              && WholeKeysKnown(schema, v, union)
  {
    assert {} + union == union;
    if Closed(schema) {
      if v.Obj? {
        PropertiesForgivingMore(spec, schema.kind.properties, v, {}, union);
        assert ObjectAccepts(spec, schema.kind, v, union) <==>
               && (forall name | name in schema.kind.required :: name in v.fields)
               && PropertiesAccept(spec, schema.kind.properties, v, union)
               && (forall key | key in v.fields :: Declares(schema.kind.properties, key) || LastSegment(key) in union);
      }
    } else {
      ForgivingMore(spec, schema, v, {}, union);
    }
  }

  /** Where both readings of the keys agree in every object-shaped branch. */
  predicate KeysReadAlike(spec: Spec, branches: seq<SchemaRef>, v: Value, union: set<string>) {
    forall i | 0 <= i < |branches| && ResolveSchema(spec, branches[i]).Some? ::
      var sub := ResolveSchema(spec, branches[i]).value;
      WholeKeysKnown(sub, v, union) <==> LastPartsKnown(sub, v, union)
  }

  ghost predicate AllBeside(spec: Spec, branches: seq<SchemaRef>, union: set<string>, v: Value)
    requires Founded(spec)
    decreases |branches|
  {
    branches == [] ||
    (var sub := ResolveSchema(spec, branches[0]);
     && (sub.Some? ==> AcceptsBeside(spec, sub.value, v, union))
     && AllBeside(spec, branches[1..], union, v))
  }

  ghost predicate SomeMasksBelow(spec: Spec, branches: seq<SchemaRef>, union: set<string>, v: Value)
    requires Founded(spec)
    decreases |branches|
  {
    branches != [] &&
    (var sub := ResolveSchema(spec, branches[0]);
     || (sub.Some? && Lenient(sub.value) && MasksBelow(spec, sub.value, v, union))
     || SomeMasksBelow(spec, branches[1..], union, v))
  }

  /**
   * So `allOf` means what its filter is for, a closed branch tolerating its siblings' keys, unless it masks further
   * down.
   */
  lemma {:induction false} AllOfBesideIsExact(spec: Spec, branches: seq<SchemaRef>, union: set<string>, v: Value)
    requires Founded(spec) && KeysReadAlike(spec, branches, v, union)
    ensures AllBeside(spec, branches, union, v) <==>
              AllAccept(spec, branches, union, v, {}) && !SomeMasksBelow(spec, branches, union, v)
    decreases |branches|
  {
    if branches != [] {
      var rest := branches[1..];
      assert forall i | 0 <= i < |rest| :: rest[i] == branches[i + 1];
      AllOfBesideIsExact(spec, rest, union, v);
      var sub := ResolveSchema(spec, branches[0]);
      if sub.Some? && Lenient(sub.value) {
        assert union + {} == union;
        BesideIsExact(spec, sub.value, v, union);
        KnownWhenAccepted(spec, sub.value, v, union);
      }
    }
  }

  lemma KnownWhenAccepted(spec: Spec, schema: Schema, v: Value, union: set<string>)
    requires Founded(spec) && Lenient(schema)
    ensures AcceptsBeside(spec, schema, v, union) ==> WholeKeysKnown(schema, v, union)
    ensures Accepts(spec, schema, v, union) ==> LastPartsKnown(schema, v, union)
  {
    if Closed(schema) && Accepts(spec, schema, v, union) && v.Obj? {
      assert ObjectAccepts(spec, schema.kind, v, union);
    }
  }

  // ---- schemas that never mask ----

  /** No object schema inside this one says `additionalProperties: false`. */
  predicate Open(schema: Schema) {
    match schema.kind
    case ObjectType(_, properties, additional) =>
      && (forall p | p in properties :: OpenRef(p.schema))
      && additional != Permitted(false)
      && (additional.Constrained? ==> OpenRef(additional.schema))
    case ArrayType(items, _, _, _) => items.Some? ==> OpenRef(items.value)
    case OneOf(branches) => forall b | b in branches :: OpenRef(b)
    case AnyOf(branches) => forall b | b in branches :: OpenRef(b)
    case AllOf(branches) => forall b | b in branches :: OpenRef(b)
    case Not(branch) => OpenRef(branch)
    case AnyType(_, _, _, _, excluded, _, properties) =>
      && (excluded.Some? ==> OpenRef(excluded.value))
      && (forall p | p in properties :: OpenRef(p.schema))
    case _ => true
  }

  predicate OpenRef(r: SchemaRef) {
    r.Item? ==> Open(r.schema)
  }

  predicate OpenSpec(spec: Spec) {
    forall n | n in spec.schemas :: OpenRef(spec.schemas[n])
  }

  lemma ResolvedIsOpen(spec: Spec, r: SchemaRef)
    requires OpenSpec(spec) && OpenRef(r) && ResolveSchema(spec, r).Some?
    ensures Open(ResolveSchema(spec, r).value)
  {
  }

  lemma {:induction false} OpenMasksNothing(spec: Spec, schema: Schema, v: Value, base: set<string>, extra: set<string>)
    requires Founded(spec) && OpenSpec(spec) && Open(schema)
    ensures !Masks(spec, schema, v, base, extra)
    decreases v, Order(spec, schema), 2, 0
  {
    if !(v.Null? && schema.nullable) {
      match schema.kind
      case ObjectType(_, properties, additional) =>
        if v.Obj? {
          OpenPropertiesMaskNothing(spec, properties, v, base, extra);
          if additional.Constrained? && ResolveSchema(spec, additional.schema).Some? {
            ResolvedIsOpen(spec, additional.schema);
            forall key | key in v.fields
              ensures !Masks(spec, ResolveSchema(spec, additional.schema).value, v.fields[key], base, extra)
            {
              OpenMasksNothing(spec, ResolveSchema(spec, additional.schema).value, v.fields[key], base, extra);
            }
          }
          assert !ObjectMasks(spec, schema.kind, v, base, extra);
        }
      case ArrayType(items, _, _, _) =>
        if v.Arr? && items.Some? && ResolveSchema(spec, items.value).Some? {
          ResolvedIsOpen(spec, items.value);
          forall i | 0 <= i < |v.items|
            ensures !Masks(spec, ResolveSchema(spec, items.value).value, v.items[i], base, extra)
          {
            OpenMasksNothing(spec, ResolveSchema(spec, items.value).value, v.items[i], base, extra);
          }
        }
      case OneOf(branches) =>
        if Named(spec, schema, v).Some? {
          NamedIsLower(spec, schema, v);
          var i :| 0 <= i < |branches| && ResolveSchema(spec, branches[i]) == Named(spec, schema, v);
          ResolvedIsOpen(spec, branches[i]);
          OpenMasksNothing(spec, Named(spec, schema, v).value, v, base, extra);
        }
      case AllOf(branches) => OpenBranchesMaskNothing(spec, branches, Declared(spec, branches), v, base, extra);
      case AnyType(_, _, _, _, _, _, properties) =>
        if v.Obj? {
          OpenPropertiesMaskNothing(spec, properties, v, base, extra);
        }
      case _ =>
    }
  }

  lemma {:induction false} OpenPropertiesMaskNothing(spec: Spec, properties: seq<Property>, v: Value,
                                                     base: set<string>, extra: set<string>)
    requires Founded(spec) && OpenSpec(spec) && v.Obj?
    requires forall p | p in properties :: OpenRef(p.schema)
    ensures !PropertiesMask(spec, properties, v, base, extra)
    decreases v, 0, 0, 0
  {
    forall p | p in properties && p.name in v.fields && ResolveSchema(spec, p.schema).Some?
      ensures !Masks(spec, ResolveSchema(spec, p.schema).value, v.fields[p.name], base, extra)
    {
      ResolvedIsOpen(spec, p.schema);
      OpenMasksNothing(spec, ResolveSchema(spec, p.schema).value, v.fields[p.name], base, extra);
    }
  }

  lemma {:induction false} OpenBranchesMaskNothing(spec: Spec, branches: seq<SchemaRef>, union: set<string>, v: Value,
                                                   base: set<string>, extra: set<string>)
    requires Founded(spec) && OpenSpec(spec)
    requires forall b | b in branches :: OpenRef(b)
    ensures !BranchesMask(spec, branches, union, v, base, extra)
    decreases v, BranchesLevel(RankOf(spec), branches), 3, |branches|
  {
    if branches != [] {
      BranchLevel(spec, branches, 0);
      assert branches == [branches[0]] + branches[1..];
      OpenBranchesMaskNothing(spec, branches[1..], union, v, base, extra);
      var sub := ResolveSchema(spec, branches[0]);
      if sub.Some? {
        ResolvedIsOpen(spec, branches[0]);
        OpenMasksNothing(spec, sub.value, v, if Lenient(sub.value) then union + base else base, extra);
      }
    }
  }

  /** Over open schemas it makes no difference which names the surrounding `allOf`s declare. */
  lemma OpenIgnoresForgiveness(spec: Spec, schema: Schema, v: Value, f: set<string>, g: set<string>)
    requires Founded(spec) && OpenSpec(spec) && Open(schema)
    ensures Accepts(spec, schema, v, f) <==> Accepts(spec, schema, v, g)
  {
    ForgivingMore(spec, schema, v, f, g);
    ForgivingMore(spec, schema, v, g, f);
    OpenMasksNothing(spec, schema, v, f, g);
    OpenMasksNothing(spec, schema, v, g, f);
    assert f + g == g + f;
  }

  /** So there `allOf` means what it says, whatever the value. */
  lemma OpenAllOf(spec: Spec, branches: seq<SchemaRef>, union: set<string>, v: Value)
    requires Founded(spec) && OpenSpec(spec)
    requires forall b | b in branches :: OpenRef(b)
    ensures AllAccept(spec, branches, union, v, {}) <==> AllHit(spec, branches, v)
  {
    AllOfIsExact(spec, branches, union, v);
    forall i | 0 <= i < |branches| && ResolveSchema(spec, branches[i]).Some?
      ensures !Masks(spec, ResolveSchema(spec, branches[i]).value, v, {}, union)
    {
      assert branches[i] in branches;
      ResolvedIsOpen(spec, branches[i]);
      OpenMasksNothing(spec, ResolveSchema(spec, branches[i]).value, v, {}, union);
    }
  }

  // ---- a schema under an `allOf` of its own ----

  function Wrapped(schema: Schema): Schema {
    Schema(false, None, AllOf([Item(schema)]))
  }

  /**
   * Wrapping an object schema in an `allOf` of its own loses an error exactly when its properties' names mask all of
   * them.
   */
  lemma WrappingMasks(spec: Spec, schema: Schema, v: Value, loc: Location, field: string)
    requires Founded(spec) && Lenient(schema)
    ensures var names := PropertyNames(schema.kind.properties);
            Validate(spec, Wrapped(schema), v, loc, field) == [] && Validate(spec, schema, v, loc, field) != [] <==>
              Accepts(spec, schema, v, names) && Masks(spec, schema, v, {}, names)
  {
    var branches, names := [Item(schema)], PropertyNames(schema.kind.properties);
    assert branches[1..] == [];
    assert Declared(spec, branches) == names + Declared(spec, branches[1..]) == names;
    assert AllAccept(spec, branches[1..], names, v, {});
    assert names + {} == names && {} + names == names;
    assert AllAccept(spec, branches, names, v, {}) <==> Accepts(spec, schema, v, names);
    ForgivingMore(spec, schema, v, {}, names);
    ValidatorDecides(spec, schema, v, loc, field);
    ValidatorDecides(spec, Wrapped(schema), v, loc, field);
  }

  const ANYTHING: Schema := Schema(false, None, AnyType(None, [], None, None, None, [], []))

  /** No properties allowed at all. */
  const CLOSED: Schema := Schema(false, None, ObjectType([], [], Permitted(false)))

  /** One branch declaring `id` and a closed `child`. */
  const PARENT: Schema :=
    Schema(false, None, ObjectType([], [Property("id", Item(ANYTHING)), Property("child", Item(CLOSED))], Unspecified))

  /** Under `allOf` a closed child lets through a property that only its parent declares; on its own it refuses it. */
  lemma ClosedChildIsMasked(x: Value)
    ensures var spec := Spec(map[], (p, s) => true, (f, s) => true);
            var child := Obj(map["id" := x]);
            var parent := Obj(map["child" := child]);
            && Founded(spec)
            && Validate(spec, CLOSED, child, Body, "body") != []
            && Validate(spec, PARENT, parent, Body, "body") != []
            && Validate(spec, Wrapped(PARENT), parent, Body, "body") == []
  {
    var spec := Spec(map[], (p, s) => true, (f, s) => true);
    var child := Obj(map["id" := x]);
    var parent := Obj(map["child" := child]);
    assert Ranks(map[], spec);
    var props := PARENT.kind.properties;
    var names := PropertyNames(props);
    var p := Property("child", Item(CLOSED));
    assert props[1] == p && p in props && props[0].name == "id";
    assert "id" in names && LastSegment("id") == "id";
    assert "id" in child.fields && !Declares(CLOSED.kind.properties, "id");
    assert MaskedKey(CLOSED.kind.properties, CLOSED.kind.additional, child, {}, names);
    assert Masks(spec, CLOSED, child, {}, names);
    assert PropertiesMask(spec, props, parent, {}, names) by {
      assert p.name in parent.fields && parent.fields[p.name] == child;
    }
    assert Masks(spec, PARENT, parent, {}, names);
    assert PropertiesAccept(spec, props, parent, names) by {
      assert Accepts(spec, CLOSED, child, names);
      forall q | q in props && q.name in parent.fields
        ensures q == p
      {
      }
    }
    WrappingMasks(spec, PARENT, parent, Body, "body");
    ForgivingMore(spec, CLOSED, child, {}, names);
    ValidatorDecides(spec, CLOSED, child, Body, "body");
  }
}
