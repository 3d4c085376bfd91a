/** Silent probes: validating at another place, under another field name, finds the same failures. */
module Probe {
  import opened Strings
  import opened Json
  import opened Keys
  import opened Schemas
  import opened Validator
  import opened Acceptance

  /** The same errors reported at `loc`, each field name behind `prefix`. */
  function Moved(errors: seq<Error>, loc: Location, prefix: string): seq<Error> {
    if errors == [] then []
    else [Error(loc, prefix + errors[0].field, errors[0].code)] + Moved(errors[1..], loc, prefix)
  }

  function Codes(errors: seq<Error>): seq<Code> {
    seq(|errors|, i requires 0 <= i < |errors| => errors[i].code)
  }

  lemma {:induction false} MovedJoin(a: seq<Error>, b: seq<Error>, loc: Location, prefix: string)
    ensures Moved(a + b, loc, prefix) == Moved(a, loc, prefix) + Moved(b, loc, prefix)
  {
    if a == [] {
      assert a + b == b;
    } else {
      assert (a + b)[1..] == a[1..] + b;
      MovedJoin(a[1..], b, loc, prefix);
    }
  }

  lemma {:induction false} MovedCodes(a: seq<Error>, loc: Location, prefix: string)
    ensures Codes(Moved(a, loc, prefix)) == Codes(a)
  {
    if a != [] {
      MovedCodes(a[1..], loc, prefix);
      assert Codes(a) == [a[0].code] + Codes(a[1..]);
      var m := Moved(a, loc, prefix);
      assert Codes(m) == [m[0].code] + Codes(m[1..]);
    }
  }

  /** Where the filter looks at a field, there is a dot in it. */
  ghost predicate Dotted(errors: seq<Error>) {
    forall e | e in errors :: e.code == AdditionalPropertiesCode ==> '.' in e.field
  }

  lemma {:induction false} MovedUnforgiven(a: seq<Error>, names: set<string>, loc: Location, prefix: string)
    requires Dotted(a)
    ensures Unforgiven(Moved(a, loc, prefix), names) == Moved(Unforgiven(a, names), loc, prefix)
  {
    if a != [] {
      var e := Error(loc, prefix + a[0].field, a[0].code);
      var rest := Unforgiven(a[1..], names);
      MovedUnforgiven(a[1..], names, loc, prefix);
      assert Forgiven(e, names) == Forgiven(a[0], names) by {
        if a[0].code == AdditionalPropertiesCode {
          LastSegmentOf(prefix, a[0].field);
        }
      }
      assert Moved(a, loc, prefix)[1..] == Moved(a[1..], loc, prefix);
      if !Forgiven(a[0], names) {
        assert ([a[0]] + rest)[1..] == rest;
        assert Moved([a[0]] + rest, loc, prefix) == [e] + Moved(rest, loc, prefix);
      }
    }
  }

  lemma ChildMoves(prefix: string, field: string, key: string)
    ensures Child(prefix + field, key) == prefix + Child(field, key)
  {
  }

  lemma IndexedMoves(prefix: string, field: string, i: nat)
    ensures Indexed(prefix + field, i) == prefix + Indexed(field, i)
  {
  }

  /** What relocation says of one list of errors and its counterpart behind `prefix`. */
  ghost predicate Corresponds(here: seq<Error>, there: seq<Error>, loc: Location, prefix: string) {
    there == Moved(here, loc, prefix) && Dotted(here)
  }

  lemma JoinCorresponds(a: seq<Error>, a': seq<Error>, b: seq<Error>, b': seq<Error>, loc: Location, prefix: string)
    requires Corresponds(a, a', loc, prefix) && Corresponds(b, b', loc, prefix)
    ensures Corresponds(a + b, a' + b', loc, prefix)
  {
    MovedJoin(a, b, loc, prefix);
  }

  lemma ComplaintCorresponds(wrong: bool, from: Location, field: string, loc: Location, prefix: string, code: Code)
    requires code == AdditionalPropertiesCode ==> '.' in field
    ensures Corresponds(Complain(wrong, from, field, code), Complain(wrong, loc, prefix + field, code), loc, prefix)
  {
  }

  lemma {:induction false} RequiredRelocates(required: seq<string>, fields: map<string, Value>, from: Location,
                                             field: string, loc: Location, prefix: string)
    ensures Corresponds(RequiredErrors(required, fields, from, field),
                        RequiredErrors(required, fields, loc, prefix + field),
                        loc, prefix)
  {
    if required != [] {
      ChildMoves(prefix, field, required[0]);
      RequiredRelocates(required[1..], fields, from, field, loc, prefix);
      var wrong := required[0] !in fields;
      ComplaintCorresponds(wrong, from, Child(field, required[0]), loc, prefix, RequiredCode);
      JoinCorresponds(Complain(wrong, from, Child(field, required[0]), RequiredCode),
                      Complain(wrong, loc, prefix + Child(field, required[0]), RequiredCode),
                      RequiredErrors(required[1..], fields, from, field),
                      RequiredErrors(required[1..], fields, loc, prefix + field), loc, prefix);
    }
  }

  lemma {:induction false} ClosedRelocates(properties: seq<Property>, keys: seq<string>, from: Location, field: string,
                                           loc: Location, prefix: string)
    ensures Corresponds(ClosedErrors(properties, keys, from, field),
                        ClosedErrors(properties, keys, loc, prefix + field),
                        loc, prefix)
  {
    if keys != [] {
      ChildMoves(prefix, field, keys[0]);
      ClosedRelocates(properties, keys[1..], from, field, loc, prefix);
      var wrong := !Declares(properties, keys[0]);
      assert ("." + keys[0])[0] == '.';
      ComplaintCorresponds(wrong, from, Child(field, keys[0]), loc, prefix, AdditionalPropertiesCode);
      JoinCorresponds(Complain(wrong, from, Child(field, keys[0]), AdditionalPropertiesCode),
                      Complain(wrong, loc, prefix + Child(field, keys[0]), AdditionalPropertiesCode),
                      ClosedErrors(properties, keys[1..], from, field),
                      ClosedErrors(properties, keys[1..], loc, prefix + field), loc, prefix);
    }
  }

  lemma {:induction false} FailingRelocates(checks: seq<Check>, from: Location, field: string, loc: Location,
                                            prefix: string)
    requires forall c | c in checks :: c.code != AdditionalPropertiesCode
    ensures Corresponds(Failing(checks, from, field), Failing(checks, loc, prefix + field), loc, prefix)
  {
    if checks != [] {
      var c := checks[0];
      FailingRelocates(checks[1..], from, field, loc, prefix);
      ComplaintCorresponds(c.wrong, from, field, loc, prefix, c.code);
      JoinCorresponds(Complain(c.wrong, from, field, c.code), Complain(c.wrong, loc, prefix + field, c.code),
                      Failing(checks[1..], from, field), Failing(checks[1..], loc, prefix + field), loc, prefix);
    }
  }

  lemma StringRelocates(spec: Spec, k: Kind, v: Value, from: Location, field: string, loc: Location, prefix: string)
    requires k.StringType?
    ensures Corresponds(StringErrors(spec, k, v, from, field), StringErrors(spec, k, v, loc, prefix + field), loc,
                        prefix)
  {
    if v.Str? && !(k.texts != [] && Some(v.s) !in k.texts) {
      FailingRelocates([Check(k.minLength.Some? && |v.s| < k.minLength.value, MinLengthCode),
                        Check(k.maxLength.Some? && |v.s| > k.maxLength.value, MaxLengthCode),
                        Check(k.pattern.Some? && !spec.matchesPattern(k.pattern.value, v.s), PatternCode),
                        Check(k.format.Some? && !spec.matchesFormat(k.format.value, v.s), FormatCode)],
                       from, field, loc, prefix);
    }
  }

  lemma IntegerRelocates(k: Kind, v: Value, from: Location, field: string, loc: Location, prefix: string)
    requires k.IntegerType?
    ensures Corresponds(IntegerErrors(k, v, from, field), IntegerErrors(k, v, loc, prefix + field), loc, prefix)
  {
    if IsI64(v) && !(k.int32 && !(I32_MIN <= v.n.i <= I32_MAX)) && !(k.ints != [] && Some(v.n.i) !in k.ints) {
      FailingRelocates(IntegerChecks(k, v.n.i), from, field, loc, prefix);
    }
  }

  lemma NumberRelocates(k: Kind, v: Value, from: Location, field: string, loc: Location, prefix: string)
    requires k.NumberType?
    ensures Corresponds(NumberErrors(k, v, from, field), NumberErrors(k, v, loc, prefix + field), loc, prefix)
  {
    if v.Num? && !(k.reals != [] && !RealListed(k.reals, AsReal(v.n))) {
      var r := AsReal(v.n);
      FailingRelocates([Check(k.realMin.Some? && !(if k.overMin then r > k.realMin.value else r >= k.realMin.value),
                              if k.overMin then ExclusiveMinimumCode else MinimumCode),
                        Check(k.realMax.Some? && !(if k.underMax then r < k.realMax.value else r <= k.realMax.value),
                              if k.underMax then ExclusiveMaximumCode else MaximumCode),
                        Check(k.realMultiple.Some? && k.realMultiple.value != 0.0 &&
                              !NearMultiple(r, k.realMultiple.value),
                              MultipleOfCode)], from, field, loc, prefix);
    }
  }

  /** Validation behind a prefix is validation without it, moved; the filter under `allOf` notices no difference. */
  lemma {:induction false} Relocates(spec: Spec, schema: Schema, v: Value, from: Location, field: string,
                                     loc: Location, prefix: string)
    requires Founded(spec)
    ensures Corresponds(Validate(spec, schema, v, from, field), Validate(spec, schema, v, loc, prefix + field), loc,
                        prefix)
    decreases v, Order(spec, schema), 2, 1
  {
    if !(v.Null? && schema.nullable) {
      match schema.kind
      case StringType(_, _, _, _, _) => StringRelocates(spec, schema.kind, v, from, field, loc, prefix);
      case IntegerType(_, _, _, _, _, _, _) => IntegerRelocates(schema.kind, v, from, field, loc, prefix);
      case NumberType(_, _, _, _, _, _) => NumberRelocates(schema.kind, v, from, field, loc, prefix);
      case BooleanType(_) =>
        var wrong := schema.kind.bools != [] && v.Bool? && Some(v.b) !in schema.kind.bools;
        ComplaintCorresponds(wrong, from, field, loc, prefix, EnumCode);
      case ObjectType(_, _, _) => ObjectRelocates(spec, schema.kind, v, from, field, loc, prefix);
      case ArrayType(_, _, _, _) => ArrayRelocates(spec, schema.kind, v, from, field, loc, prefix);
      case OneOf(_) => CompositionRelocates(spec, schema, v, from, field, loc, prefix);
      case AnyOf(_) => CompositionRelocates(spec, schema, v, from, field, loc, prefix);
      case AllOf(_) => CompositionRelocates(spec, schema, v, from, field, loc, prefix);
      case Not(_) => CompositionRelocates(spec, schema, v, from, field, loc, prefix);
      case AnyType(_, _, _, _, _, _, _) => AnyRelocates(spec, schema, v, from, field, loc, prefix);
    }
  }

  lemma {:induction false} CompositionRelocates(spec: Spec, schema: Schema, v: Value, from: Location, field: string,
                                                loc: Location, prefix: string)
    requires Founded(spec) && !(v.Null? && schema.nullable)
    requires schema.kind.OneOf? || schema.kind.AnyOf? || schema.kind.AllOf? || schema.kind.Not?
    ensures Corresponds(Validate(spec, schema, v, from, field), Validate(spec, schema, v, loc, prefix + field), loc,
                        prefix)
    decreases v, Order(spec, schema), 2, 0
  {
    match schema.kind
    case OneOf(branches) =>
      if Discriminated(spec, schema, v).Some? {
        DiscriminatedIsLower(spec, schema, v);
        Relocates(spec, Discriminated(spec, schema, v).value, v, from, field, loc, prefix);
      } else {
        ComplaintCorresponds(Matches(spec, branches, v) != 1, from, field, loc, prefix, OneOfCode);
      }
    case AnyOf(branches) => ComplaintCorresponds(Matches(spec, branches, v) == 0, from, field, loc, prefix, AnyOfCode);
    case AllOf(branches) => BranchesRelocate(spec, branches, Declared(spec, branches), v, from, field, loc, prefix);
    case Not(branch) => ComplaintCorresponds(Matches(spec, [branch], v) == 1, from, field, loc, prefix, NotCode);
  }

  lemma {:induction false} ObjectRelocates(spec: Spec, k: Kind, v: Value, from: Location, field: string, loc: Location,
                                           prefix: string)
    requires Founded(spec) && k.ObjectType?
    ensures Corresponds(ObjectErrors(spec, k, v, from, field), ObjectErrors(spec, k, v, loc, prefix + field), loc,
                        prefix)
    decreases v, 0, 1, 0
  {
    if v.Obj? {
      var keys := Sorted(v.fields.Keys);
      var a := RequiredErrors(k.required, v.fields, from, field);
      var a' := RequiredErrors(k.required, v.fields, loc, prefix + field);
      var b := PropertyErrors(spec, k.properties, v, from, field);
      var b' := PropertyErrors(spec, k.properties, v, loc, prefix + field);
      var c := AdditionalErrors(spec, k.properties, k.additional, keys, v, from, field);
      var c' := AdditionalErrors(spec, k.properties, k.additional, keys, v, loc, prefix + field);
      RequiredRelocates(k.required, v.fields, from, field, loc, prefix);
      PropertiesRelocate(spec, k.properties, v, from, field, loc, prefix);
      match k.additional {
        case Unspecified =>
        case Permitted(yes) => ClosedRelocates(k.properties, keys, from, field, loc, prefix);
        case Constrained(extra) => ExtrasRelocate(spec, k.properties, extra, keys, v, from, field, loc, prefix);
      }
      JoinCorresponds(a, a', b, b', loc, prefix);
      JoinCorresponds(a + b, a' + b', c, c', loc, prefix);
    }
  }

  lemma {:induction false} PropertiesRelocate(spec: Spec, properties: seq<Property>, v: Value, from: Location,
                                              field: string, loc: Location, prefix: string)
    requires Founded(spec) && v.Obj?
    ensures Corresponds(PropertyErrors(spec, properties, v, from, field),
                        PropertyErrors(spec, properties, v, loc, prefix + field),
                        loc, prefix)
    decreases v, 0, 0, |properties|
  {
    if properties != [] {
      var p := properties[0];
      var rest := PropertyErrors(spec, properties[1..], v, from, field);
      var rest' := PropertyErrors(spec, properties[1..], v, loc, prefix + field);
      PropertiesRelocate(spec, properties[1..], v, from, field, loc, prefix);
      var sub := ResolveSchema(spec, p.schema);
      if p.name in v.fields && sub.Some? {
        ChildMoves(prefix, field, p.name);
        Relocates(spec, sub.value, v.fields[p.name], from, Child(field, p.name), loc, prefix);
        JoinCorresponds(Validate(spec, sub.value, v.fields[p.name], from, Child(field, p.name)),
                        Validate(spec, sub.value, v.fields[p.name], loc, prefix + Child(field, p.name)),
                        rest, rest', loc, prefix);
      } else {
        assert [] + rest == rest && [] + rest' == rest';
      }
    }
  }

  lemma {:induction false} ExtrasRelocate(spec: Spec, properties: seq<Property>, extra: SchemaRef, keys: seq<string>,
                                          v: Value, from: Location, field: string, loc: Location, prefix: string)
    requires Founded(spec) && v.Obj? && forall k | k in keys :: k in v.fields
    ensures Corresponds(AdditionalErrors(spec, properties, Constrained(extra), keys, v, from, field),
                        AdditionalErrors(spec, properties, Constrained(extra), keys, v, loc, prefix + field),
                        loc, prefix)
    decreases v, 0, 0, |keys|
  {
    var sub := ResolveSchema(spec, extra);
    if keys != [] && sub.Some? {
      var k := keys[0];
      var rest := AdditionalErrors(spec, properties, Constrained(extra), keys[1..], v, from, field);
      var rest' := AdditionalErrors(spec, properties, Constrained(extra), keys[1..], v, loc, prefix + field);
      ExtrasRelocate(spec, properties, extra, keys[1..], v, from, field, loc, prefix);
      if Declares(properties, k) {
        assert [] + rest == rest && [] + rest' == rest';
      } else {
        ChildMoves(prefix, field, k);
        Relocates(spec, sub.value, v.fields[k], from, Child(field, k), loc, prefix);
        JoinCorresponds(Validate(spec, sub.value, v.fields[k], from, Child(field, k)),
                        Validate(spec, sub.value, v.fields[k], loc, prefix + Child(field, k)),
                        rest, rest', loc, prefix);
      }
    }
  }

  lemma {:induction false} ArrayRelocates(spec: Spec, k: Kind, v: Value, from: Location, field: string, loc: Location,
                                          prefix: string)
    requires Founded(spec) && k.ArrayType?
    ensures Corresponds(ArrayErrors(spec, k, v, from, field), ArrayErrors(spec, k, v, loc, prefix + field), loc, prefix)
    decreases v, 0, 1, 0
  {
    if v.Arr? {
      var checks := [Check(k.minItems.Some? && |v.items| < k.minItems.value, MinItemsCode),
                     Check(k.maxItems.Some? && |v.items| > k.maxItems.value, MaxItemsCode)];
      var twice := k.unique && HasDuplicates(v.items);
      var f' := prefix + field;
      FailingRelocates(checks, from, field, loc, prefix);
      ComplaintCorresponds(twice, from, field, loc, prefix, UniqueItemsCode);
      var a, a' := Failing(checks, from, field), Failing(checks, loc, f');
      var c, c' := EachItemErrors(spec, k.items, v, from, field), EachItemErrors(spec, k.items, v, loc, f');
      if k.items.Some? && ResolveSchema(spec, k.items.value).Some? {
        ItemsRelocate(spec, ResolveSchema(spec, k.items.value).value, v, 0, from, field, loc, prefix);
      }
      JoinCorresponds(a, a', c, c', loc, prefix);
      JoinCorresponds(a + c, a' + c', Complain(twice, from, field, UniqueItemsCode),
                      Complain(twice, loc, f', UniqueItemsCode), loc, prefix);
    }
  }

  lemma {:induction false} ItemsRelocate(spec: Spec, item: Schema, v: Value, i: nat, from: Location, field: string,
                                         loc: Location, prefix: string)
    requires Founded(spec) && v.Arr? && i <= |v.items|
    ensures Corresponds(ItemErrors(spec, item, v, i, from, field), ItemErrors(spec, item, v, i, loc, prefix + field),
                        loc, prefix)
    decreases v, 0, 0, |v.items| - i
  {
    if i < |v.items| {
      ItemsRelocate(spec, item, v, i + 1, from, field, loc, prefix);
      IndexedMoves(prefix, field, i);
      Relocates(spec, item, v.items[i], from, Indexed(field, i), loc, prefix);
      JoinCorresponds(Validate(spec, item, v.items[i], from, Indexed(field, i)),
                      Validate(spec, item, v.items[i], loc, prefix + Indexed(field, i)),
                      ItemErrors(spec, item, v, i + 1, from, field),
                      ItemErrors(spec, item, v, i + 1, loc, prefix + field),
                      loc, prefix);
    }
  }

  lemma {:induction false} BranchesRelocate(spec: Spec, branches: seq<SchemaRef>, union: set<string>, v: Value,
                                            from: Location, field: string, loc: Location, prefix: string)
    requires Founded(spec)
    ensures Corresponds(BranchErrors(spec, branches, union, v, from, field),
                        BranchErrors(spec, branches, union, v, loc, prefix + field), loc, prefix)
    decreases v, BranchesLevel(RankOf(spec), branches), 3, |branches|
  {
    if branches != [] {
      BranchLevel(spec, branches, 0);
      var rest := BranchErrors(spec, branches[1..], union, v, from, field);
      var rest' := BranchErrors(spec, branches[1..], union, v, loc, prefix + field);
      BranchesRelocate(spec, branches[1..], union, v, from, field, loc, prefix);
      var sub := ResolveSchema(spec, branches[0]);
      if sub.None? {
        assert [] + rest == rest && [] + rest' == rest';
      } else {
        FilteredRelocates(spec, sub.value, union, v, from, field, loc, prefix);
        JoinCorresponds(FilteredErrors(spec, sub.value, union, v, from, field),
                        FilteredErrors(spec, sub.value, union, v, loc, prefix + field), rest, rest', loc, prefix);
      }
    }
  }

  lemma {:induction false} FilteredRelocates(spec: Spec, schema: Schema, union: set<string>, v: Value,
                                             from: Location, field: string, loc: Location, prefix: string)
    requires Founded(spec)
    ensures Corresponds(FilteredErrors(spec, schema, union, v, from, field),
                        FilteredErrors(spec, schema, union, v, loc, prefix + field), loc, prefix)
    decreases v, Order(spec, schema), 2, 2
  {
    Relocates(spec, schema, v, from, field, loc, prefix);
    if Lenient(schema) {
      var e := Validate(spec, schema, v, from, field);
      MovedUnforgiven(e, union, loc, prefix);
      UnforgivenKeepsRest(e, union);
    }
  }

  lemma {:induction false} AnyRelocates(spec: Spec, schema: Schema, v: Value, from: Location, field: string,
                                        loc: Location, prefix: string)
    requires Founded(spec) && schema.kind.AnyType?
    ensures Corresponds(AnyErrors(spec, schema, v, from, field), AnyErrors(spec, schema, v, loc, prefix + field), loc,
                        prefix)
    decreases v, Order(spec, schema), 1, 0
  {
    var k := schema.kind;
    if !(k.typ.Some? && !TypeFits(k.typ.value, v)) {
      var f' := prefix + field;
      var checks := AnyChecks(spec, schema, v);
      FailingRelocates(checks, from, field, loc, prefix);
      AnyObjectRelocates(spec, k, v, from, field, loc, prefix);
      JoinCorresponds(Failing(checks, from, field), Failing(checks, loc, f'),
                      AnyObjectErrors(spec, k, v, from, field), AnyObjectErrors(spec, k, v, loc, f'), loc, prefix);
    }
  }

  lemma {:induction false} AnyObjectRelocates(spec: Spec, k: Kind, v: Value, from: Location, field: string,
                                              loc: Location, prefix: string)
    requires Founded(spec) && k.AnyType?
    ensures Corresponds(AnyObjectErrors(spec, k, v, from, field), AnyObjectErrors(spec, k, v, loc, prefix + field), loc,
                        prefix)
    decreases v, 0, 0, |k.properties| + 1
  {
    if v.Obj? {
      var f' := prefix + field;
      RequiredRelocates(k.required, v.fields, from, field, loc, prefix);
      PropertiesRelocate(spec, k.properties, v, from, field, loc, prefix);
      JoinCorresponds(RequiredErrors(k.required, v.fields, from, field), RequiredErrors(k.required, v.fields, loc, f'),
                      PropertyErrors(spec, k.properties, v, from, field),
                      PropertyErrors(spec, k.properties, v, loc, f'),
                      loc, prefix);
    }
  }

  /** The codes reported, and so whether anything is, depend neither on the place nor on the field name. */
  lemma SameCodesEverywhere(spec: Spec, schema: Schema, v: Value, loc1: Location, field1: string, loc2: Location,
                            field2: string)
    requires Founded(spec)
    ensures Codes(Validate(spec, schema, v, loc1, field1)) == Codes(Validate(spec, schema, v, loc2, field2))
  {
    Relocates(spec, schema, v, Body, "", loc1, field1);
    Relocates(spec, schema, v, Body, "", loc2, field2);
    assert field1 + "" == field1 && field2 + "" == field2;
    MovedCodes(Validate(spec, schema, v, Body, ""), loc1, field1);
    MovedCodes(Validate(spec, schema, v, Body, ""), loc2, field2);
  }
}
