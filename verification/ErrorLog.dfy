/** The validator as the source runs it: a list of errors that every check appends to. */
module ErrorLogs {
  import opened Strings
  import opened Json
  import opened Keys
  import opened Schemas
  import opened Validator

  /** One more chunk of the expected errors has been appended. */
  lemma Advance(before: seq<Error>, chunk: seq<Error>, rest: seq<Error>, target: seq<Error>)
    requires before + (chunk + rest) == target
    ensures (before + chunk) + rest == target
  {
    assert (before + chunk) + rest == before + (chunk + rest);
  }

  /** Three appends in a row, regrouped. */
  lemma Appended(e: seq<Error>, a: seq<Error>, b: seq<Error>, c: seq<Error>)
    ensures ((e + a) + b) + c == e + ((a + b) + c)
    ensures ((e + a) + b) + c == e + (a + (b + c))
  {
  }

  function At(c: Check, loc: Location, field: string): seq<Error> {
    Complain(c.wrong, loc, field, c.code)
  }

  lemma TwoChecks(a: Check, b: Check, loc: Location, field: string)
    ensures Failing([a, b], loc, field) == At(a, loc, field) + At(b, loc, field)
  {
    assert [a, b][1..] == [b] && [b][1..] == [];
    assert Failing([], loc, field) == [];
    assert Failing([b], loc, field) == At(b, loc, field);
  }

  lemma ThreeChecks(a: Check, b: Check, c: Check, loc: Location, field: string)
    ensures Failing([a, b, c], loc, field) == At(a, loc, field) + (At(b, loc, field) + At(c, loc, field))
  {
    assert [a, b, c][1..] == [b, c];
    TwoChecks(b, c, loc, field);
  }

  lemma FourChecks(a: Check, b: Check, c: Check, d: Check, loc: Location, field: string)
    ensures Failing([a, b, c, d], loc, field) ==
            At(a, loc, field) + (At(b, loc, field) + (At(c, loc, field) + At(d, loc, field)))
  {
    assert [a, b, c, d][1..] == [b, c, d];
    ThreeChecks(b, c, d, loc, field);
  }

  /** Each method only appends: what was reported before stays, and what is new is what `Validate` lists. */
  class ErrorLog {
    var entries: seq<Error>

    constructor ()
      ensures entries == []
    {
      entries := [];
    }

    method Push(wrong: bool, loc: Location, field: string, code: Code)
      modifies this
      ensures entries == old(entries) + Complain(wrong, loc, field, code)
    {
      if wrong {
        entries := entries + [Error(loc, field, code)];
      }
    }

    method PushTwo(a: Check, b: Check, loc: Location, field: string)
      modifies this
      ensures entries == old(entries) + Failing([a, b], loc, field)
    {
      Push(a.wrong, loc, field, a.code);
      Push(b.wrong, loc, field, b.code);
      TwoChecks(a, b, loc, field);
    }

    method PushThree(a: Check, b: Check, c: Check, loc: Location, field: string)
      modifies this
      ensures entries == old(entries) + Failing([a, b, c], loc, field)
    {
      Push(a.wrong, loc, field, a.code);
      PushTwo(b, c, loc, field);
      TwoChecks(b, c, loc, field);
      ThreeChecks(a, b, c, loc, field);
      Advance(old(entries), At(a, loc, field), Failing([b, c], loc, field),
              old(entries) + Failing([a, b, c], loc, field));
    }

    method PushFour(a: Check, b: Check, c: Check, d: Check, loc: Location, field: string)
      modifies this
      ensures entries == old(entries) + Failing([a, b, c, d], loc, field)
    {
      Push(a.wrong, loc, field, a.code);
      PushThree(b, c, d, loc, field);
      ThreeChecks(b, c, d, loc, field);
      FourChecks(a, b, c, d, loc, field);
      Advance(old(entries), At(a, loc, field), Failing([b, c, d], loc, field),
              old(entries) + Failing([a, b, c, d], loc, field));
    }

    method ValidateValue(spec: Spec, schema: Schema, v: Value, loc: Location, field: string)
      requires Founded(spec)
      modifies this
      ensures entries == old(entries) + Validate(spec, schema, v, loc, field)
      decreases v, Order(spec, schema), 2, 1
    {
      if v.Null? && schema.nullable {
        return;
      }
      match schema.kind {
        case StringType(_, _, _, _, _) => ValidateString(spec, schema.kind, v, loc, field);
        case IntegerType(_, _, _, _, _, _, _) => ValidateInteger(schema.kind, v, loc, field);
        case NumberType(_, _, _, _, _, _) => ValidateNumber(schema.kind, v, loc, field);
        case BooleanType(_) =>
          if !v.Bool? {
            Push(true, loc, field, TypeCode);
          } else {
            Push(schema.kind.bools != [] && Some(v.b) !in schema.kind.bools, loc, field, EnumCode);
          }
        case ObjectType(_, _, _) => ValidateObject(spec, schema.kind, v, loc, field);
        case ArrayType(_, _, _, _) => ValidateArray(spec, schema.kind, v, loc, field);
        case AnyType(_, _, _, _, _, _, _) => ValidateAny(spec, schema, v, loc, field);
        case _ => ValidateComposition(spec, schema, v, loc, field);
      }
    }

    method ValidateString(spec: Spec, k: Kind, v: Value, loc: Location, field: string)
      requires k.StringType?
      modifies this
      ensures entries == old(entries) + StringErrors(spec, k, v, loc, field)
    {
      if !v.Str? {
        Push(true, loc, field, TypeCode);
        return;
      }
      if k.texts != [] && Some(v.s) !in k.texts {
        Push(true, loc, field, EnumCode);
        return;
      }
      var short := k.minLength.Some? && |v.s| < k.minLength.value;
      var long := k.maxLength.Some? && |v.s| > k.maxLength.value;
      var odd := k.pattern.Some? && !spec.matchesPattern(k.pattern.value, v.s);
      var wrong := k.format.Some? && !spec.matchesFormat(k.format.value, v.s);
      PushFour(Check(short, MinLengthCode), Check(long, MaxLengthCode), Check(odd, PatternCode),
               Check(wrong, FormatCode), loc, field);
    }

    method ValidateInteger(k: Kind, v: Value, loc: Location, field: string)
      requires k.IntegerType?
      modifies this
      ensures entries == old(entries) + IntegerErrors(k, v, loc, field)
    {
      if !IsI64(v) {
        Push(true, loc, field, TypeCode);
        return;
      }
      if k.int32 && !(I32_MIN <= v.n.i <= I32_MAX) {
        Push(true, loc, field, FormatCode);
        return;
      }
      if k.ints != [] && Some(v.n.i) !in k.ints {
        Push(true, loc, field, EnumCode);
        return;
      }
      var low := k.intMin.Some? && !(if k.aboveMin then v.n.i > k.intMin.value else v.n.i >= k.intMin.value);
      var high := k.intMax.Some? && !(if k.belowMax then v.n.i < k.intMax.value else v.n.i <= k.intMax.value);
      var odd := k.intMultiple.Some? && k.intMultiple.value != 0 && v.n.i % k.intMultiple.value != 0;
      var lowCode := if k.aboveMin then ExclusiveMinimumCode else MinimumCode;
      var highCode := if k.belowMax then ExclusiveMaximumCode else MaximumCode;
      PushThree(Check(low, lowCode), Check(high, highCode), Check(odd, MultipleOfCode), loc, field);
    }

    method ValidateNumber(k: Kind, v: Value, loc: Location, field: string)
      requires k.NumberType?
      modifies this
      ensures entries == old(entries) + NumberErrors(k, v, loc, field)
    {
      if !v.Num? {
        Push(true, loc, field, TypeCode);
        return;
      }
      var r := AsReal(v.n);
      if k.reals != [] && !RealListed(k.reals, r) {
        Push(true, loc, field, EnumCode);
        return;
      }
      var low := k.realMin.Some? && !(if k.overMin then r > k.realMin.value else r >= k.realMin.value);
      var high := k.realMax.Some? && !(if k.underMax then r < k.realMax.value else r <= k.realMax.value);
      var odd := k.realMultiple.Some? && k.realMultiple.value != 0.0 && !NearMultiple(r, k.realMultiple.value);
      var lowCode := if k.overMin then ExclusiveMinimumCode else MinimumCode;
      var highCode := if k.underMax then ExclusiveMaximumCode else MaximumCode;
      PushThree(Check(low, lowCode), Check(high, highCode), Check(odd, MultipleOfCode), loc, field);
    }

    method ValidateRequired(required: seq<string>, fields: map<string, Value>, loc: Location, field: string)
      modifies this
      ensures entries == old(entries) + RequiredErrors(required, fields, loc, field)
    {
      assert required[0..] == required;
      ghost var target := entries + RequiredErrors(required, fields, loc, field);
      for i := 0 to |required|
        invariant entries + RequiredErrors(required[i..], fields, loc, field) == target
      {
        assert required[i..][1..] == required[i + 1..];
        Advance(entries, Complain(required[i] !in fields, loc, Child(field, required[i]), RequiredCode),
                RequiredErrors(required[i + 1..], fields, loc, field), target);
        Push(required[i] !in fields, loc, Child(field, required[i]), RequiredCode);
      }
      assert required[|required|..] == [];
    }

    method ValidateProperties(spec: Spec, properties: seq<Property>, v: Value, loc: Location, field: string)
      requires Founded(spec) && v.Obj?
      modifies this
      ensures entries == old(entries) + PropertyErrors(spec, properties, v, loc, field)
      decreases v, 0, 0, |properties|
    {
      assert properties[0..] == properties;
      ghost var target := entries + PropertyErrors(spec, properties, v, loc, field);
      for i := 0 to |properties|
        invariant entries + PropertyErrors(spec, properties[i..], v, loc, field) == target
      {
        assert properties[i..][1..] == properties[i + 1..];
        var p := properties[i];
        ghost var rest := PropertyErrors(spec, properties[i + 1..], v, loc, field);
        var sub := ResolveSchema(spec, p.schema);
        if p.name in v.fields && sub.Some? {
          Advance(entries, Validate(spec, sub.value, v.fields[p.name], loc, Child(field, p.name)), rest, target);
          ValidateValue(spec, sub.value, v.fields[p.name], loc, Child(field, p.name));
        } else {
          assert [] + rest == rest;
        }
      }
      assert properties[|properties|..] == [];
    }

    method ValidateObject(spec: Spec, k: Kind, v: Value, loc: Location, field: string)
      requires Founded(spec) && k.ObjectType?
      modifies this
      ensures entries == old(entries) + ObjectErrors(spec, k, v, loc, field)
      decreases v, 0, 1, 0
    {
      if !v.Obj? {
        Push(true, loc, field, TypeCode);
        return;
      }
      ghost var before := entries;
      ghost var keys := Sorted(v.fields.Keys);
      ValidateRequired(k.required, v.fields, loc, field);
      ValidateProperties(spec, k.properties, v, loc, field);
      Appended(before, RequiredErrors(k.required, v.fields, loc, field),
               PropertyErrors(spec, k.properties, v, loc, field),
               AdditionalErrors(spec, k.properties, k.additional, keys, v, loc, field));
      match k.additional {
        case Unspecified =>
        case Permitted(yes) =>
          if !yes {
            RefuseOthers(k.properties, v, loc, field);
          }
        case Constrained(extra) => ValidateOthers(spec, k.properties, extra, v, loc, field);
      }
    }

    method RefuseOthers(properties: seq<Property>, v: Value, loc: Location, field: string)
      requires v.Obj?
      modifies this
      ensures entries == old(entries) + ClosedErrors(properties, Sorted(v.fields.Keys), loc, field)
    {
      var todo := v.fields.Keys;
      ghost var target := entries + ClosedErrors(properties, Sorted(todo), loc, field);
      while todo != {}
        invariant entries + ClosedErrors(properties, Sorted(todo), loc, field) == target
        decreases todo
      {
        var key, rest := TakeFirst(todo);
        assert Sorted(todo)[1..] == Sorted(rest);
        Advance(entries, Complain(!Declares(properties, key), loc, Child(field, key), AdditionalPropertiesCode),
                ClosedErrors(properties, Sorted(rest), loc, field), target);
        Push(!Declares(properties, key), loc, Child(field, key), AdditionalPropertiesCode);
        todo := rest;
      }
    }

    method ValidateOthers(spec: Spec, properties: seq<Property>, extra: SchemaRef, v: Value, loc: Location,
                          field: string)
      requires Founded(spec) && v.Obj?
      modifies this
      ensures entries == old(entries)
                         + AdditionalErrors(spec, properties, Constrained(extra), Sorted(v.fields.Keys), v, loc, field)
      decreases v, 0, 0, |v.fields| + 1
    {
      var sub := ResolveSchema(spec, extra);
      if sub.None? {
        return;
      }
      var todo := v.fields.Keys;
      ghost var target := entries + AdditionalErrors(spec, properties, Constrained(extra), Sorted(todo), v, loc, field);
      while todo != {}
        invariant todo <= v.fields.Keys
        invariant entries + AdditionalErrors(spec, properties, Constrained(extra), Sorted(todo), v, loc, field) ==
                  target
        decreases todo
      {
        var key, rest := TakeFirst(todo);
        assert Sorted(todo)[1..] == Sorted(rest);
        ghost var later := AdditionalErrors(spec, properties, Constrained(extra), Sorted(rest), v, loc, field);
        if Declares(properties, key) {
          assert [] + later == later;
        } else {
          Advance(entries, Validate(spec, sub.value, v.fields[key], loc, Child(field, key)), later, target);
          ValidateValue(spec, sub.value, v.fields[key], loc, Child(field, key));
        }
        todo := rest;
      }
    }

    method ValidateArray(spec: Spec, k: Kind, v: Value, loc: Location, field: string)
      requires Founded(spec) && k.ArrayType?
      modifies this
      ensures entries == old(entries) + ArrayErrors(spec, k, v, loc, field)
      decreases v, 0, 1, 0
    {
      if !v.Arr? {
        Push(true, loc, field, TypeCode);
        return;
      }
      var short := k.minItems.Some? && |v.items| < k.minItems.value;
      var long := k.maxItems.Some? && |v.items| > k.maxItems.value;
      ghost var before := entries;
      PushTwo(Check(short, MinItemsCode), Check(long, MaxItemsCode), loc, field);
      ValidateItems(spec, k.items, v, loc, field);
      Push(k.unique && HasDuplicates(v.items), loc, field, UniqueItemsCode);
      Appended(before, Failing([Check(short, MinItemsCode), Check(long, MaxItemsCode)], loc, field),
               EachItemErrors(spec, k.items, v, loc, field),
               Complain(k.unique && HasDuplicates(v.items), loc, field, UniqueItemsCode));
    }

    method ValidateItems(spec: Spec, items: Option<SchemaRef>, v: Value, loc: Location, field: string)
      requires Founded(spec) && v.Arr?
      modifies this
      ensures entries == old(entries) + EachItemErrors(spec, items, v, loc, field)
      decreases v, 0, 0, |v.items| + 1
    {
      if items.None? {
        return;
      }
      var item := ResolveSchema(spec, items.value);
      if item.None? {
        return;
      }
      ghost var target := entries + ItemErrors(spec, item.value, v, 0, loc, field);
      for i := 0 to |v.items|
        invariant entries + ItemErrors(spec, item.value, v, i, loc, field) == target
      {
        Advance(entries, Validate(spec, item.value, v.items[i], loc, Indexed(field, i)),
                ItemErrors(spec, item.value, v, i + 1, loc, field), target);
        ValidateValue(spec, item.value, v.items[i], loc, Indexed(field, i));
      }
    }

    method ValidateComposition(spec: Spec, schema: Schema, v: Value, loc: Location, field: string)
      requires Founded(spec) && !(v.Null? && schema.nullable)
      requires schema.kind.OneOf? || schema.kind.AnyOf? || schema.kind.AllOf? || schema.kind.Not?
      modifies this
      ensures entries == old(entries) + Validate(spec, schema, v, loc, field)
      decreases v, Order(spec, schema), 2, 0
    {
      match schema.kind {
        case OneOf(branches) =>
          var branch := Discriminated(spec, schema, v);
          if branch.Some? {
            DiscriminatedIsLower(spec, schema, v);
            ValidateValue(spec, branch.value, v, loc, field);
          } else {
            var matches := CountMatches(spec, branches, v);
            Push(matches != 1, loc, field, OneOfCode);
          }
        case AnyOf(branches) =>
          var matches := CountMatches(spec, branches, v);
          Push(matches == 0, loc, field, AnyOfCode);
        case AllOf(branches) => ValidateBranches(spec, branches, Declared(spec, branches), v, loc, field);
        case Not(branch) =>
          OneBranchLevel(RankOf(spec), branch);
          var matches := CountMatches(spec, [branch], v);
          Push(matches == 1, loc, field, NotCode);
      }
    }

    method ValidateBranches(spec: Spec, branches: seq<SchemaRef>, union: set<string>, v: Value, loc: Location,
                            field: string)
      requires Founded(spec)
      modifies this
      ensures entries == old(entries) + BranchErrors(spec, branches, union, v, loc, field)
      decreases v, BranchesLevel(RankOf(spec), branches), 3, |branches|
    {
      assert branches[0..] == branches;
      ghost var target := entries + BranchErrors(spec, branches, union, v, loc, field);
      for i := 0 to |branches|
        invariant entries + BranchErrors(spec, branches[i..], union, v, loc, field) == target
      {
        assert branches[i..][1..] == branches[i + 1..];
        BranchLevel(spec, branches, i);
        ghost var rest := BranchErrors(spec, branches[i + 1..], union, v, loc, field);
        var sub := ResolveSchema(spec, branches[i]);
        if sub.Some? {
          Advance(entries, FilteredErrors(spec, sub.value, union, v, loc, field), rest, target);
          ValidateBranch(spec, sub.value, union, v, loc, field);
        } else {
          assert [] + rest == rest;
        }
      }
      assert branches[|branches|..] == [];
    }

    /** `validate_allof_branch`. */
    method ValidateBranch(spec: Spec, schema: Schema, union: set<string>, v: Value, loc: Location, field: string)
      requires Founded(spec)
      modifies this
      ensures entries == old(entries) + FilteredErrors(spec, schema, union, v, loc, field)
      decreases v, Order(spec, schema), 2, 2
    {
      if !Lenient(schema) {
        ValidateValue(spec, schema, v, loc, field);
        return;
      }
      var tmp := new ErrorLog();
      tmp.ValidateValue(spec, schema, v, loc, field);
      ghost var found := Validate(spec, schema, v, loc, field);
      assert tmp.entries == found;
      assert found[0..] == found;
      ghost var target := entries + Unforgiven(found, union);
      for i := 0 to |tmp.entries|
        invariant tmp.entries == found
        invariant entries + Unforgiven(found[i..], union) == target
      {
        assert found[i..][1..] == found[i + 1..];
        var err := tmp.entries[i];
        if err.code == AdditionalPropertiesCode && LastSegment(err.field) in union {
          continue;
        }
        Advance(entries, [err], Unforgiven(found[i + 1..], union), target);
        entries := entries + [err];
      }
      assert found[|found|..] == [];
    }

    method ValidateAny(spec: Spec, schema: Schema, v: Value, loc: Location, field: string)
      requires Founded(spec) && schema.kind.AnyType?
      modifies this
      ensures entries == old(entries) + AnyErrors(spec, schema, v, loc, field)
      decreases v, Order(spec, schema), 1, 0
    {
      var k := schema.kind;
      if k.typ.Some? && !TypeFits(k.typ.value, v) {
        Push(true, loc, field, TypeCode);
        return;
      }
      var refused := k.values != [] && v !in k.values;
      var odd := v.Str? && k.anyPattern.Some? && !spec.matchesPattern(k.anyPattern.value, v.s);
      var wrong := v.Str? && k.anyFormat.Some? && !spec.matchesFormat(k.anyFormat.value, v.s);
      var matches := CountExcluded(spec, schema, v);
      PushFour(Check(refused, EnumCode), Check(odd, PatternCode), Check(wrong, FormatCode),
               Check(matches == 1, NotCode), loc, field);
      if v.Obj? {
        ValidateRequired(k.required, v.fields, loc, field);
        ValidateProperties(spec, k.properties, v, loc, field);
        Appended(old(entries), Failing(AnyChecks(spec, schema, v), loc, field),
                 RequiredErrors(k.required, v.fields, loc, field), PropertyErrors(spec, k.properties, v, loc, field));
      }
    }
  }

  method CountExcluded(spec: Spec, schema: Schema, v: Value) returns (count: nat)
    requires Founded(spec) && schema.kind.AnyType?
    ensures count == if schema.kind.excluded.Some? then Matches(spec, [schema.kind.excluded.value], v) else 0
    decreases v, Order(spec, schema), 0, 1
  {
    count := 0;
    if schema.kind.excluded.Some? {
      OneBranchLevel(RankOf(spec), schema.kind.excluded.value);
      count := CountMatches(spec, [schema.kind.excluded.value], v);
    }
  }

  /** Probes each branch against a list of its own, as `validate_value_silently` does. */
  method CountMatches(spec: Spec, branches: seq<SchemaRef>, v: Value) returns (count: nat)
    requires Founded(spec)
    ensures count == Matches(spec, branches, v)
    decreases v, BranchesLevel(RankOf(spec), branches), 3, |branches|
  {
    count := 0;
    assert branches[0..] == branches;
    for i := 0 to |branches|
      invariant count + Matches(spec, branches[i..], v) == Matches(spec, branches, v)
    {
      assert branches[i..][1..] == branches[i + 1..];
      BranchLevel(spec, branches, i);
      var sub := ResolveSchema(spec, branches[i]);
      if sub.Some? {
        var tmp := new ErrorLog();
        tmp.ValidateValue(spec, sub.value, v, Body, "_");
        if tmp.entries == [] {
          count := count + 1;
        }
      }
    }
    assert branches[|branches|..] == [];
  }
}
