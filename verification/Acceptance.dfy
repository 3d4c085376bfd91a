/** What the validator accepts, said without lists of errors, and the proof that it accepts exactly that. */
module Acceptance {
  import opened Strings
  import opened Json
  import opened Keys
  import opened Schemas
  import opened Validator

  predicate StringFits(spec: Spec, k: Kind, v: Value)
    requires k.StringType?
  {
    && v.Str?
    && (k.texts == [] || Some(v.s) in k.texts)
    && (k.minLength.Some? ==> k.minLength.value <= |v.s|)
    && (k.maxLength.Some? ==> |v.s| <= k.maxLength.value)
    && (k.pattern.Some? ==> spec.matchesPattern(k.pattern.value, v.s))
    && (k.format.Some? ==> spec.matchesFormat(k.format.value, v.s))
  }

  /** A number lies on the right side of its bounds; the flags make them strict. */
  predicate WithinInts(n: int, low: Option<int>, high: Option<int>, strictLow: bool, strictHigh: bool) {
    && (low.Some? ==> low.value <= n && (strictLow ==> low.value != n))
    && (high.Some? ==> n <= high.value && (strictHigh ==> high.value != n))
  }

  predicate WithinReals(r: real, low: Option<real>, high: Option<real>, strictLow: bool, strictHigh: bool) {
    && (low.Some? ==> low.value <= r && (strictLow ==> low.value != r))
    && (high.Some? ==> r <= high.value && (strictHigh ==> high.value != r))
  }

  predicate IntegerFits(k: Kind, v: Value)
    requires k.IntegerType?
  {
    && IsI64(v)
    && (k.int32 ==> I32_MIN <= v.n.i <= I32_MAX)
    && (k.ints == [] || Some(v.n.i) in k.ints)
    && WithinInts(v.n.i, k.intMin, k.intMax, k.aboveMin, k.belowMax)
    && (k.intMultiple.Some? && k.intMultiple.value != 0 ==> v.n.i % k.intMultiple.value == 0)
  }

  predicate NumberFits(k: Kind, v: Value)
    requires k.NumberType?
  {
    && v.Num?
    && (k.reals == [] || RealListed(k.reals, AsReal(v.n)))
    && WithinReals(AsReal(v.n), k.realMin, k.realMax, k.overMin, k.underMax)
    && (k.realMultiple.Some? && k.realMultiple.value != 0.0 ==> NearMultiple(AsReal(v.n), k.realMultiple.value))
  }

  predicate BooleanFits(k: Kind, v: Value)
    requires k.BooleanType?
  {
    v.Bool? && (k.bools == [] || Some(v.b) in k.bools)
  }

  // ---- which branch a discriminator names ----

  /** The branch is a reference to what the mapping has for the key. */
  predicate ByMapping(b: SchemaRef, d: Discriminator, key: string) {
    b.Reference? && key in d.mapping && b.target == d.mapping[key]
  }

  /** The branch is a reference to a component called like the key. */
  predicate ByName(b: SchemaRef, key: string) {
    && b.Reference?
    && "#/components/schemas/" <= b.target
    && SameName(b.target[|"#/components/schemas/"|..], key)
  }

  predicate Names(b: SchemaRef, d: Discriminator, key: string) {
    ByMapping(b, d, key) || ByName(b, key)
  }

  predicate FirstNamed(branches: seq<SchemaRef>, d: Discriminator, key: string, i: nat) {
    i < |branches| && Names(branches[i], d, key) && forall j | 0 <= j < i :: !Names(branches[j], d, key)
  }

  /** What the first branch named by the value's discriminator property resolves to. */
  ghost function Named(spec: Spec, schema: Schema, v: Value): (r: Option<Schema>)
    requires schema.kind.OneOf?
    ensures r.Some? ==> exists i | 0 <= i < |schema.kind.branches| :: ResolveSchema(spec, schema.kind.branches[i]) == r
  {
    match schema.discriminator
    case None => None
    case Some(d) =>
      if v.HasStr(d.property) && exists i: nat :: FirstNamed(schema.kind.branches, d, v.fields[d.property].s, i) then
        var i: nat :| FirstNamed(schema.kind.branches, d, v.fields[d.property].s, i);
        ResolveSchema(spec, schema.kind.branches[i])
      else None
  }

  lemma LetterCase(a: char, b: char)
    ensures Lower(a) == Lower(b) <==> SameLetter(a, b)
  {
  }

  lemma FoldedNames(a: string, b: string)
    ensures EqIgnoreCase(a, b) <==> SameName(a, b)
  {
    forall i | 0 <= i < |a| && i < |b|
      ensures Lower(a[i]) == Lower(b[i]) <==> SameLetter(a[i], b[i])
    {
      LetterCase(a[i], b[i]);
    }
  }

  /** The search through the branches finds the first one that is named, if any is. */
  lemma {:induction false} FindsFirstNamed(spec: Spec, branches: seq<SchemaRef>, d: Discriminator, key: string)
    ensures var r := FindBranch(spec, branches, if key in d.mapping then Some(d.mapping[key]) else None, key);
            && (forall i: nat | FirstNamed(branches, d, key, i) :: r == ResolveSchema(spec, branches[i]))
            && ((forall i: nat :: !FirstNamed(branches, d, key, i)) ==> r == None)
    decreases |branches|
  {
    if branches != [] {
      var b, rest := branches[0], branches[1..];
      if b.Reference? && "#/components/schemas/" <= b.target {
        FoldedNames(b.target[|"#/components/schemas/"|..], key);
      }
      if Names(b, d, key) {
        assert FirstNamed(branches, d, key, 0);
      } else {
        FindsFirstNamed(spec, rest, d, key);
        forall i: nat
          ensures FirstNamed(rest, d, key, i) <==> FirstNamed(branches, d, key, i + 1)
        {
          assert forall j | 0 <= j < |rest| :: rest[j] == branches[j + 1];
          assert forall j | 0 < j < |branches| :: branches[j] == rest[j - 1];
        }
        forall i: nat | FirstNamed(branches, d, key, i)
          ensures i > 0 && FirstNamed(rest, d, key, i - 1)
        {
          assert i != 0;
        }
      }
    }
  }

  /** The validator goes by the first branch that the mapping or a component's name gives, and by none without one. */
  lemma DiscriminatedIsNamed(spec: Spec, schema: Schema, v: Value)
    requires schema.kind.OneOf?
    ensures Discriminated(spec, schema, v) == Named(spec, schema, v)
  {
    if schema.discriminator.Some? && v.HasStr(schema.discriminator.value.property) {
      var d := schema.discriminator.value;
      FindsFirstNamed(spec, schema.kind.branches, d, v.fields[d.property].s);
    }
  }

  /** A branch the mapping gives is overtaken by an earlier one with the key for its name, and by nothing else. */
  lemma MappedIsTaken(branches: seq<SchemaRef>, d: Discriminator, key: string, i: nat)
    requires i < |branches| && ByMapping(branches[i], d, key)
    requires forall j | 0 <= j < i :: !ByMapping(branches[j], d, key)
    ensures FirstNamed(branches, d, key, i) <==> forall j | 0 <= j < i :: !ByName(branches[j], key)
  {
  }

  lemma NamedIsLower(spec: Spec, schema: Schema, v: Value)
    requires Founded(spec) && schema.kind.OneOf? && Named(spec, schema, v).Some?
    ensures Order(spec, Named(spec, schema, v).value) < Order(spec, schema)
  {
    DiscriminatedIsNamed(spec, schema, v);
    DiscriminatedIsLower(spec, schema, v);
  }

  /**
   * `v` satisfies `schema`. `forgiven` holds the property names declared by the branches of the `allOf`s around
   * this place: an undeclared property whose last dotted part is among them is let through.
   */
  ghost predicate Accepts(spec: Spec, schema: Schema, v: Value, forgiven: set<string>)
    requires Founded(spec)
    decreases v, Order(spec, schema), 2
  {
    || (v.Null? && schema.nullable)
    || match schema.kind
       case StringType(_, _, _, _, _) => StringFits(spec, schema.kind, v)
       case IntegerType(_, _, _, _, _, _, _) => IntegerFits(schema.kind, v)
       case NumberType(_, _, _, _, _, _) => NumberFits(schema.kind, v)
       case BooleanType(_) => BooleanFits(schema.kind, v)
       case ObjectType(_, _, _) => ObjectAccepts(spec, schema.kind, v, forgiven)
       case ArrayType(_, _, _, _) => ArrayAccepts(spec, schema.kind, v, forgiven)
       case OneOf(branches) =>
         if Named(spec, schema, v).Some? then
           NamedIsLower(spec, schema, v);
           Accepts(spec, Named(spec, schema, v).value, v, forgiven)
         else |Accepting(spec, branches, v)| == 1
       case AnyOf(branches) => Accepting(spec, branches, v) != {}
       case AllOf(branches) => AllAccept(spec, branches, Declared(spec, branches), v, forgiven)
       case Not(branch) =>
         OneBranchLevel(RankOf(spec), branch);
         Accepting(spec, [branch], v) == {}
       case AnyType(_, _, _, _, _, _, _) => AnyAccepts(spec, schema, v, forgiven)
  }

  ghost predicate ObjectAccepts(spec: Spec, k: Kind, v: Value, forgiven: set<string>)
    requires Founded(spec) && k.ObjectType?
    decreases v, 0, 1
  {
    && v.Obj?
    && (forall name | name in k.required :: name in v.fields)
    && PropertiesAccept(spec, k.properties, v, forgiven)
    && (match k.additional
        case Unspecified => true
        case Permitted(yes) =>
          yes || forall key | key in v.fields :: Declares(k.properties, key) || LastSegment(key) in forgiven
        case Constrained(extra) =>
          ResolveSchema(spec, extra).Some? ==>
            forall key | key in v.fields && !Declares(k.properties, key) ::
              Accepts(spec, ResolveSchema(spec, extra).value, v.fields[key], forgiven))
  }

  ghost predicate ArrayAccepts(spec: Spec, k: Kind, v: Value, forgiven: set<string>)
    requires Founded(spec) && k.ArrayType?
    decreases v, 0, 1
  {
    && v.Arr?
    && (k.minItems.Some? ==> k.minItems.value <= |v.items|)
    && (k.maxItems.Some? ==> |v.items| <= k.maxItems.value)
    && (k.items.Some? && ResolveSchema(spec, k.items.value).Some? ==>
          forall i | 0 <= i < |v.items| ::
              Accepts(spec, ResolveSchema(spec, k.items.value).value, v.items[i], forgiven))
    && (k.unique ==> forall i, j | 0 <= i < j < |v.items| :: v.items[i] != v.items[j])
  }

  ghost predicate AnyAccepts(spec: Spec, schema: Schema, v: Value, forgiven: set<string>)
    requires Founded(spec) && schema.kind.AnyType?
    decreases v, Order(spec, schema), 1
  {
    var k := schema.kind;
    assert k.excluded.Some? ==> BranchesLevel(RankOf(spec), [k.excluded.value]) < Order(spec, schema) by {
      if k.excluded.Some? {
        OneBranchLevel(RankOf(spec), k.excluded.value);
      }
    }
    && (k.typ.Some? ==> TypeFits(k.typ.value, v))
    && (k.values == [] || v in k.values)
    && (v.Str? && k.anyPattern.Some? ==> spec.matchesPattern(k.anyPattern.value, v.s))
    && (v.Str? && k.anyFormat.Some? ==> spec.matchesFormat(k.anyFormat.value, v.s))
    && (k.excluded.Some? ==> Accepting(spec, [k.excluded.value], v) == {})
    && (v.Obj? ==>
          && (forall name | name in k.required :: name in v.fields)
          && PropertiesAccept(spec, k.properties, v, forgiven))
  }

  /** Each declared property that is present and whose schema resolves satisfies it. */
  ghost predicate PropertiesAccept(spec: Spec, properties: seq<Property>, v: Value, forgiven: set<string>)
    requires Founded(spec) && v.Obj?
    decreases v, 0, 0
  {
    forall p | p in properties && p.name in v.fields && ResolveSchema(spec, p.schema).Some? ::
      Accepts(spec, ResolveSchema(spec, p.schema).value, v.fields[p.name], forgiven)
  }

  /** Branch `i` resolves and accepts the value on its own. */
  ghost predicate Hits(spec: Spec, branches: seq<SchemaRef>, i: nat, v: Value)
    requires Founded(spec) && i < |branches|
    decreases v, BranchesLevel(RankOf(spec), branches), 3, 0
  {
    BranchLevel(spec, branches, i);
    ResolveSchema(spec, branches[i]).Some? && Accepts(spec, ResolveSchema(spec, branches[i]).value, v, {})
  }

  /** The branches that accept the value. */
  ghost function Accepting(spec: Spec, branches: seq<SchemaRef>, v: Value): set<nat>
    requires Founded(spec)
    decreases v, BranchesLevel(RankOf(spec), branches), 3, 1
  {
    set i: nat | i < |branches| && Hits(spec, branches, i, v)
  }

  /** Every branch of `allOf` that resolves accepts; an object-shaped one forgives what its siblings declare. */
  ghost predicate AllAccept(spec: Spec, branches: seq<SchemaRef>, union: set<string>, v: Value, forgiven: set<string>)
    requires Founded(spec)
    decreases v, BranchesLevel(RankOf(spec), branches), 3, |branches|
  {
    branches == [] ||
    (BranchLevel(spec, branches, 0);
     var sub := ResolveSchema(spec, branches[0]);
     && (sub.Some? ==> Accepts(spec, sub.value, v, if Lenient(sub.value) then union + forgiven else forgiven))
     && AllAccept(spec, branches[1..], union, v, forgiven))
  }

  // ---- filtering ----

  /** Nothing is left after the forgiving filter. */
  ghost predicate Clean(errors: seq<Error>, names: set<string>) {
    forall e | e in errors :: Forgiven(e, names)
  }

  lemma {:induction false} CleanMeansNoneLeft(errors: seq<Error>, names: set<string>)
    ensures Clean(errors, names) <==> Unforgiven(errors, names) == []
  {
    if errors != [] {
      CleanMeansNoneLeft(errors[1..], names);
      assert errors == [errors[0]] + errors[1..];
    }
  }

  lemma CleanJoin(a: seq<Error>, b: seq<Error>, names: set<string>)
    ensures Clean(a + b, names) <==> Clean(a, names) && Clean(b, names)
  {
    if Clean(a + b, names) {
      assert forall e | e in a :: e in a + b;
      assert forall e | e in b :: e in a + b;
    }
  }

  /** A list without forgivable codes is clean only when empty. */
  lemma CleanPlain(a: seq<Error>, names: set<string>)
    requires forall e | e in a :: e.code != AdditionalPropertiesCode
    ensures Clean(a, names) <==> a == []
  {
    if a != [] {
      assert a[0] in a;
    }
  }

  lemma {:induction false} UnforgivenKeepsRest(errors: seq<Error>, names: set<string>)
    ensures forall e :: e in Unforgiven(errors, names) <==> e in errors && !Forgiven(e, names)
  {
    if errors != [] {
      UnforgivenKeepsRest(errors[1..], names);
      assert errors == [errors[0]] + errors[1..];
    }
  }

  /** Filtering twice lets through what either set of names forgives. */
  lemma CleanTwice(errors: seq<Error>, first: set<string>, second: set<string>)
    ensures Clean(Unforgiven(errors, first), second) <==> Clean(errors, first + second)
  {
    UnforgivenKeepsRest(errors, first);
  }

  lemma {:induction false} NobodyForgiven(a: seq<Error>)
    ensures Unforgiven(a, {}) == a
  {
    if a != [] {
      NobodyForgiven(a[1..]);
      assert a == [a[0]] + a[1..];
    }
  }

  lemma {:induction false} LastSegmentOf(prefix: string, rest: string)
    requires '.' in rest
    ensures LastSegment(prefix + rest) == LastSegment(rest)
  {
    if prefix == [] {
      assert prefix + rest == rest;
    } else {
      assert '.' in prefix + rest;
      assert (prefix + rest)[1..] == prefix[1..] + rest;
      LastSegmentOf(prefix[1..], rest);
    }
  }

  /** Only the property name decides what is forgiven: whatever stands before it in the field is dropped. */
  lemma LastSegmentOfChild(field: string, key: string)
    ensures LastSegment(Child(field, key)) == LastSegment(key)
  {
    var rest := "." + key;
    assert rest[0] == '.' && rest[1..] == key;
    assert Child(field, key) == field + rest;
    LastSegmentOf(field, rest);
  }

  // ---- the errors are exactly the failures ----

  lemma ComplaintIsExact(wrong: bool, loc: Location, field: string, code: Code, names: set<string>)
    ensures Clean(Complain(wrong, loc, field, code), names) <==>
              wrong ==> code == AdditionalPropertiesCode && LastSegment(field) in names
  {
    if wrong {
      var e := Error(loc, field, code);
      assert Complain(wrong, loc, field, code) == [e] && e in [e];
      assert Forgiven(e, names) <==> code == AdditionalPropertiesCode && LastSegment(field) in names;
    }
  }

  lemma {:induction false} FailingIsExact(checks: seq<Check>, loc: Location, field: string, names: set<string>)
    requires forall c | c in checks :: c.code != AdditionalPropertiesCode
    ensures Clean(Failing(checks, loc, field), names) <==> forall c | c in checks :: !c.wrong
  {
    if checks != [] {
      FailingIsExact(checks[1..], loc, field, names);
      ComplaintIsExact(checks[0].wrong, loc, field, checks[0].code, names);
      CleanJoin(Complain(checks[0].wrong, loc, field, checks[0].code), Failing(checks[1..], loc, field), names);
      assert checks == [checks[0]] + checks[1..];
    }
  }

  lemma NoneWrong(a: Check, b: Check, c: Check, d: Check)
    ensures (forall x | x in [a, b, c] :: !x.wrong) <==> !a.wrong && !b.wrong && !c.wrong
    ensures (forall x | x in [a, b, c, d] :: !x.wrong) <==> !a.wrong && !b.wrong && !c.wrong && !d.wrong
  {
    assert a in [a, b, c] && b in [a, b, c] && c in [a, b, c];
    assert a in [a, b, c, d] && b in [a, b, c, d] && c in [a, b, c, d] && d in [a, b, c, d];
  }

  lemma NeitherWrong(a: Check, b: Check)
    ensures (forall x | x in [a, b] :: !x.wrong) <==> !a.wrong && !b.wrong
  {
    assert a in [a, b] && b in [a, b];
  }

  lemma StringIsExact(spec: Spec, k: Kind, v: Value, loc: Location, field: string, names: set<string>)
    requires k.StringType?
    ensures Clean(StringErrors(spec, k, v, loc, field), names) <==> StringFits(spec, k, v)
  {
    if !v.Str? || !(k.texts == [] || Some(v.s) in k.texts) {
      CleanPlain(StringErrors(spec, k, v, loc, field), names);
    } else {
      var checks := [Check(k.minLength.Some? && |v.s| < k.minLength.value, MinLengthCode),
                     Check(k.maxLength.Some? && |v.s| > k.maxLength.value, MaxLengthCode),
                     Check(k.pattern.Some? && !spec.matchesPattern(k.pattern.value, v.s), PatternCode),
                     Check(k.format.Some? && !spec.matchesFormat(k.format.value, v.s), FormatCode)];
      FailingIsExact(checks, loc, field, names);
      NoneWrong(checks[0], checks[1], checks[2], checks[3]);
      assert checks == [checks[0], checks[1], checks[2], checks[3]];
    }
  }

  lemma IntegerIsExact(k: Kind, v: Value, loc: Location, field: string, names: set<string>)
    requires k.IntegerType?
    ensures Clean(IntegerErrors(k, v, loc, field), names) <==> IntegerFits(k, v)
  {
    if !IsI64(v) || (k.int32 && !(I32_MIN <= v.n.i <= I32_MAX)) || !(k.ints == [] || Some(v.n.i) in k.ints) {
      CleanPlain(IntegerErrors(k, v, loc, field), names);
    } else {
      FailingIsExact(IntegerChecks(k, v.n.i), loc, field, names);
      IntegerChecksAreExact(k, v.n.i);
    }
  }

  lemma IntegerChecksAreExact(k: Kind, n: int)
    requires k.IntegerType?
    ensures (forall c | c in IntegerChecks(k, n) :: !c.wrong) <==>
              && WithinInts(n, k.intMin, k.intMax, k.aboveMin, k.belowMax)
              && (k.intMultiple.Some? && k.intMultiple.value != 0 ==> n % k.intMultiple.value == 0)
  {
    var checks := IntegerChecks(k, n);
    NoneWrong(checks[0], checks[1], checks[2], checks[2]);
    assert checks == [checks[0], checks[1], checks[2]];
  }

  lemma NumberIsExact(k: Kind, v: Value, loc: Location, field: string, names: set<string>)
    requires k.NumberType?
    ensures Clean(NumberErrors(k, v, loc, field), names) <==> NumberFits(k, v)
  {
    if !v.Num? || !(k.reals == [] || RealListed(k.reals, AsReal(v.n))) {
      CleanPlain(NumberErrors(k, v, loc, field), names);
    } else {
      var r := AsReal(v.n);
      var checks := [Check(k.realMin.Some? && !(if k.overMin then r > k.realMin.value else r >= k.realMin.value),
                           if k.overMin then ExclusiveMinimumCode else MinimumCode),
                     Check(k.realMax.Some? && !(if k.underMax then r < k.realMax.value else r <= k.realMax.value),
                           if k.underMax then ExclusiveMaximumCode else MaximumCode),
                     Check(k.realMultiple.Some? && k.realMultiple.value != 0.0 &&
                           !NearMultiple(r, k.realMultiple.value),
                           MultipleOfCode)];
      FailingIsExact(checks, loc, field, names);
      NoneWrong(checks[0], checks[1], checks[2], checks[2]);
      assert checks == [checks[0], checks[1], checks[2]];
    }
  }

  lemma BooleanIsExact(k: Kind, v: Value, loc: Location, field: string, names: set<string>)
    requires k.BooleanType?
    ensures Clean(BooleanErrors(k, v, loc, field), names) <==> BooleanFits(k, v)
  {
    CleanPlain(BooleanErrors(k, v, loc, field), names);
  }

  lemma {:induction false} RequiredIsExact(required: seq<string>, fields: map<string, Value>, loc: Location,
                                           field: string, names: set<string>)
    ensures Clean(RequiredErrors(required, fields, loc, field), names) <==>
              forall name | name in required :: name in fields
  {
    if required != [] {
      RequiredIsExact(required[1..], fields, loc, field, names);
      ComplaintIsExact(required[0] !in fields, loc, Child(field, required[0]), RequiredCode, names);
      CleanJoin(Complain(required[0] !in fields, loc, Child(field, required[0]), RequiredCode),
                RequiredErrors(required[1..], fields, loc, field), names);
      assert required == [required[0]] + required[1..];
    }
  }

  lemma {:induction false} ClosedIsExact(properties: seq<Property>, keys: seq<string>, loc: Location, field: string,
                                         names: set<string>)
    ensures Clean(ClosedErrors(properties, keys, loc, field), names) <==>
              forall k | k in keys :: Declares(properties, k) || LastSegment(k) in names
  {
    if keys != [] {
      ClosedIsExact(properties, keys[1..], loc, field, names);
      ComplaintIsExact(!Declares(properties, keys[0]), loc, Child(field, keys[0]), AdditionalPropertiesCode, names);
      CleanJoin(Complain(!Declares(properties, keys[0]), loc, Child(field, keys[0]), AdditionalPropertiesCode),
                ClosedErrors(properties, keys[1..], loc, field), names);
      LastSegmentOfChild(field, keys[0]);
      assert keys == [keys[0]] + keys[1..];
    }
  }

  /** What the filter leaves of the errors is nothing exactly when the value is accepted. */
  lemma {:induction false} ValidateIsExact(spec: Spec, schema: Schema, v: Value, loc: Location, field: string,
                                           names: set<string>)
    requires Founded(spec)
    ensures Clean(Validate(spec, schema, v, loc, field), names) <==> Accepts(spec, schema, v, names)
    decreases v, Order(spec, schema), 2, 1
  {
    if !(v.Null? && schema.nullable) {
      match schema.kind
      case StringType(_, _, _, _, _) => StringIsExact(spec, schema.kind, v, loc, field, names);
      case IntegerType(_, _, _, _, _, _, _) => IntegerIsExact(schema.kind, v, loc, field, names);
      case NumberType(_, _, _, _, _, _) => NumberIsExact(schema.kind, v, loc, field, names);
      case BooleanType(_) => BooleanIsExact(schema.kind, v, loc, field, names);
      case ObjectType(_, _, _) => ObjectIsExact(spec, schema.kind, v, loc, field, names);
      case ArrayType(_, _, _, _) => ArrayIsExact(spec, schema.kind, v, loc, field, names);
      case OneOf(_) => CompositionIsExact(spec, schema, v, loc, field, names);
      case AnyOf(_) => CompositionIsExact(spec, schema, v, loc, field, names);
      case AllOf(_) => CompositionIsExact(spec, schema, v, loc, field, names);
      case Not(_) => CompositionIsExact(spec, schema, v, loc, field, names);
      case AnyType(_, _, _, _, _, _, _) => AnyIsExact(spec, schema, v, loc, field, names);
    }
  }

  lemma {:induction false} CompositionIsExact(spec: Spec, schema: Schema, v: Value, loc: Location, field: string,
                                              names: set<string>)
    requires Founded(spec) && !(v.Null? && schema.nullable)
    requires schema.kind.OneOf? || schema.kind.AnyOf? || schema.kind.AllOf? || schema.kind.Not?
    ensures Clean(Validate(spec, schema, v, loc, field), names) <==> Accepts(spec, schema, v, names)
    decreases v, Order(spec, schema), 2, 0
  {
    match schema.kind
    case OneOf(branches) =>
      DiscriminatedIsNamed(spec, schema, v);
      if Discriminated(spec, schema, v).Some? {
        DiscriminatedIsLower(spec, schema, v);
        ValidateIsExact(spec, Discriminated(spec, schema, v).value, v, loc, field, names);
      } else {
        MatchesCounts(spec, branches, v);
        ComplaintIsExact(Matches(spec, branches, v) != 1, loc, field, OneOfCode, names);
      }
    case AnyOf(branches) =>
      MatchesCounts(spec, branches, v);
      ComplaintIsExact(Matches(spec, branches, v) == 0, loc, field, AnyOfCode, names);
    case AllOf(branches) =>
      BranchesAreExact(spec, branches, Declared(spec, branches), v, loc, field, names);
    case Not(branch) =>
      OneBranchLevel(RankOf(spec), branch);
      SingleProbe(spec, branch, v);
      ComplaintIsExact(Matches(spec, [branch], v) == 1, loc, field, NotCode, names);
  }

  lemma {:induction false} ObjectIsExact(spec: Spec, k: Kind, v: Value, loc: Location, field: string,
                                         names: set<string>)
    requires Founded(spec) && k.ObjectType?
    ensures Clean(ObjectErrors(spec, k, v, loc, field), names) <==> ObjectAccepts(spec, k, v, names)
    decreases v, 0, 1, 0
  {
    if v.Obj? {
      var keys := Sorted(v.fields.Keys);
      var a := RequiredErrors(k.required, v.fields, loc, field);
      var b := PropertyErrors(spec, k.properties, v, loc, field);
      var c := AdditionalErrors(spec, k.properties, k.additional, keys, v, loc, field);
      CleanJoin(a + b, c, names);
      CleanJoin(a, b, names);
      RequiredIsExact(k.required, v.fields, loc, field, names);
      PropertiesAreExact(spec, k.properties, v, loc, field, names);
      match k.additional
      case Unspecified =>
      case Permitted(yes) => ClosedIsExact(k.properties, keys, loc, field, names);
      case Constrained(extra) => ExtrasAreExact(spec, k.properties, extra, keys, v, loc, field, names);
    } else {
      CleanPlain(ObjectErrors(spec, k, v, loc, field), names);
    }
  }

  lemma {:induction false} PropertiesAreExact(spec: Spec, properties: seq<Property>, v: Value, loc: Location,
                                              field: string, names: set<string>)
    requires Founded(spec) && v.Obj?
    ensures Clean(PropertyErrors(spec, properties, v, loc, field), names) <==>
              PropertiesAccept(spec, properties, v, names)
    decreases v, 0, 0, |properties|
  {
    if properties != [] {
      var p := properties[0];
      var rest := PropertyErrors(spec, properties[1..], v, loc, field);
      PropertiesAreExact(spec, properties[1..], v, loc, field, names);
      assert properties == [p] + properties[1..];
      var sub := ResolveSchema(spec, p.schema);
      if p.name in v.fields && sub.Some? {
        ValidateIsExact(spec, sub.value, v.fields[p.name], loc, Child(field, p.name), names);
        CleanJoin(Validate(spec, sub.value, v.fields[p.name], loc, Child(field, p.name)), rest, names);
      } else {
        assert [] + rest == rest;
      }
    }
  }

  lemma {:induction false} ExtrasAreExact(spec: Spec, properties: seq<Property>, extra: SchemaRef, keys: seq<string>,
                                          v: Value, loc: Location, field: string, names: set<string>)
    requires Founded(spec) && v.Obj? && forall k | k in keys :: k in v.fields
    ensures Clean(AdditionalErrors(spec, properties, Constrained(extra), keys, v, loc, field), names) <==>
              (ResolveSchema(spec, extra).Some? ==>
                 forall k | k in keys && !Declares(properties, k) ::
                   Accepts(spec, ResolveSchema(spec, extra).value, v.fields[k], names))
    decreases v, 0, 0, |keys|
  {
    var sub := ResolveSchema(spec, extra);
    if keys != [] && sub.Some? {
      var k := keys[0];
      var rest := AdditionalErrors(spec, properties, Constrained(extra), keys[1..], v, loc, field);
      ExtrasAreExact(spec, properties, extra, keys[1..], v, loc, field, names);
      assert keys == [k] + keys[1..];
      if Declares(properties, k) {
        assert [] + rest == rest;
      } else {
        ValidateIsExact(spec, sub.value, v.fields[k], loc, Child(field, k), names);
        CleanJoin(Validate(spec, sub.value, v.fields[k], loc, Child(field, k)), rest, names);
      }
    }
  }

  lemma {:induction false} ArrayIsExact(spec: Spec, k: Kind, v: Value, loc: Location, field: string, names: set<string>)
    requires Founded(spec) && k.ArrayType?
    ensures Clean(ArrayErrors(spec, k, v, loc, field), names) <==> ArrayAccepts(spec, k, v, names)
    decreases v, 0, 1, 0
  {
    if v.Arr? {
      var checks := [Check(k.minItems.Some? && |v.items| < k.minItems.value, MinItemsCode),
                     Check(k.maxItems.Some? && |v.items| > k.maxItems.value, MaxItemsCode)];
      var a := Failing(checks, loc, field);
      var c := EachItemErrors(spec, k.items, v, loc, field);
      var d := Complain(k.unique && HasDuplicates(v.items), loc, field, UniqueItemsCode);
      CleanJoin(a + c, d, names);
      CleanJoin(a, c, names);
      FailingIsExact(checks, loc, field, names);
      NeitherWrong(checks[0], checks[1]);
      assert checks == [checks[0], checks[1]];
      ComplaintIsExact(k.unique && HasDuplicates(v.items), loc, field, UniqueItemsCode, names);
      if k.items.Some? && ResolveSchema(spec, k.items.value).Some? {
        ItemsAreExact(spec, ResolveSchema(spec, k.items.value).value, v, 0, loc, field, names);
      }
    } else {
      CleanPlain(ArrayErrors(spec, k, v, loc, field), names);
    }
  }

  lemma {:induction false} ItemsAreExact(spec: Spec, item: Schema, v: Value, i: nat, loc: Location, field: string,
                                         names: set<string>)
    requires Founded(spec) && v.Arr? && i <= |v.items|
    ensures Clean(ItemErrors(spec, item, v, i, loc, field), names) <==>
              forall j | i <= j < |v.items| :: Accepts(spec, item, v.items[j], names)
    decreases v, 0, 0, |v.items| - i
  {
    if i < |v.items| {
      ItemsAreExact(spec, item, v, i + 1, loc, field, names);
      ValidateIsExact(spec, item, v.items[i], loc, Indexed(field, i), names);
      CleanJoin(Validate(spec, item, v.items[i], loc, Indexed(field, i)), ItemErrors(spec, item, v, i + 1, loc, field),
                names);
    }
  }

  /** A set of indices counted by its first index and the rest moved down by one. */
  lemma {:induction false} CountShifted(s: set<nat>, tail: set<nat>)
    requires forall i: nat :: i in tail <==> i + 1 in s
    ensures |s| == (if 0 in s then 1 else 0) + |tail|
    decreases |tail|
  {
    if tail == {} {
      assert s == (if 0 in s then {0} else {}) by {
        forall i | i in s
          ensures i == 0
        {
          assert i != 0 ==> i - 1 in tail;
        }
      }
    } else {
      var x :| x in tail;
      CountShifted(s - {x + 1}, tail - {x});
    }
  }

  lemma AcceptingStep(spec: Spec, branches: seq<SchemaRef>, v: Value)
    requires Founded(spec) && branches != []
    ensures |Accepting(spec, branches, v)| ==
            (if Hits(spec, branches, 0, v) then 1 else 0) + |Accepting(spec, branches[1..], v)|
  {
    forall i: nat
      ensures i in Accepting(spec, branches[1..], v) <==> i + 1 in Accepting(spec, branches, v)
    {
      if i + 1 < |branches| {
        assert branches[1..][i] == branches[i + 1];
        assert Hits(spec, branches[1..], i, v) == Hits(spec, branches, i + 1, v);
      }
    }
    assert 0 in Accepting(spec, branches, v) <==> Hits(spec, branches, 0, v);
    CountShifted(Accepting(spec, branches, v), Accepting(spec, branches[1..], v));
  }

  /** The count of silent probes that report nothing is the number of branches that accept. */
  lemma {:induction false} MatchesCounts(spec: Spec, branches: seq<SchemaRef>, v: Value)
    requires Founded(spec)
    ensures Matches(spec, branches, v) == |Accepting(spec, branches, v)|
    decreases v, BranchesLevel(RankOf(spec), branches), 3, |branches|
  {
    if branches == [] {
      assert Accepting(spec, branches, v) == {};
    } else {
      BranchLevel(spec, branches, 0);
      var sub := ResolveSchema(spec, branches[0]);
      if sub.Some? {
        ValidateIsExact(spec, sub.value, v, Body, "_", {});
        CleanMeansNoneLeft(Validate(spec, sub.value, v, Body, "_"), {});
        NobodyForgiven(Validate(spec, sub.value, v, Body, "_"));
      }
      MatchesCounts(spec, branches[1..], v);
      AcceptingStep(spec, branches, v);
    }
  }

  lemma {:induction false} BranchesAreExact(spec: Spec, branches: seq<SchemaRef>, union: set<string>, v: Value,
                                            loc: Location, field: string, names: set<string>)
    requires Founded(spec)
    ensures Clean(BranchErrors(spec, branches, union, v, loc, field), names) <==>
              AllAccept(spec, branches, union, v, names)
    decreases v, BranchesLevel(RankOf(spec), branches), 3, |branches|
  {
    if branches != [] {
      BranchLevel(spec, branches, 0);
      BranchesAreExact(spec, branches[1..], union, v, loc, field, names);
      var rest := BranchErrors(spec, branches[1..], union, v, loc, field);
      var sub := ResolveSchema(spec, branches[0]);
      if sub.None? {
        assert [] + rest == rest;
      } else {
        var errors := Validate(spec, sub.value, v, loc, field);
        if Lenient(sub.value) {
          ValidateIsExact(spec, sub.value, v, loc, field, union + names);
          CleanTwice(errors, union, names);
          CleanJoin(Unforgiven(errors, union), rest, names);
        } else {
          ValidateIsExact(spec, sub.value, v, loc, field, names);
          CleanJoin(errors, rest, names);
        }
      }
    }
  }

  lemma {:induction false} AnyIsExact(spec: Spec, schema: Schema, v: Value, loc: Location, field: string,
                                      names: set<string>)
    requires Founded(spec) && schema.kind.AnyType?
    ensures Clean(AnyErrors(spec, schema, v, loc, field), names) <==> AnyAccepts(spec, schema, v, names)
    decreases v, Order(spec, schema), 1, 0
  {
    var k := schema.kind;
    if k.typ.Some? && !TypeFits(k.typ.value, v) {
      CleanPlain(AnyErrors(spec, schema, v, loc, field), names);
    } else {
      var checks := AnyChecks(spec, schema, v);
      AnyChecksAreExact(spec, schema, v);
      FailingIsExact(checks, loc, field, names);
      CleanJoin(Failing(checks, loc, field), AnyObjectErrors(spec, k, v, loc, field), names);
      if v.Obj? {
        CleanJoin(RequiredErrors(k.required, v.fields, loc, field), PropertyErrors(spec, k.properties, v, loc, field),
                  names);
        RequiredIsExact(k.required, v.fields, loc, field, names);
        PropertiesAreExact(spec, k.properties, v, loc, field, names);
      }
    }
  }

  lemma {:induction false} AnyChecksAreExact(spec: Spec, schema: Schema, v: Value)
    requires Founded(spec) && schema.kind.AnyType?
    ensures forall c | c in AnyChecks(spec, schema, v) :: c.code != AdditionalPropertiesCode
    ensures var k := schema.kind;
            (forall c | c in AnyChecks(spec, schema, v) :: !c.wrong) <==>
              && (k.values == [] || v in k.values)
              && (v.Str? && k.anyPattern.Some? ==> spec.matchesPattern(k.anyPattern.value, v.s))
              && (v.Str? && k.anyFormat.Some? ==> spec.matchesFormat(k.anyFormat.value, v.s))
              && (k.excluded.Some? ==> Accepting(spec, [k.excluded.value], v) == {})
    decreases v, Order(spec, schema), 0, 0
  {
    var k := schema.kind;
    if k.excluded.Some? {
      OneBranchLevel(RankOf(spec), k.excluded.value);
      SingleProbe(spec, k.excluded.value, v);
    }
    FourChecks(AnyChecks(spec, schema, v));
  }

  lemma FourChecks(checks: seq<Check>)
    requires |checks| == 4
    ensures (forall c | c in checks :: !c.wrong) <==>
              !checks[0].wrong && !checks[1].wrong && !checks[2].wrong && !checks[3].wrong
  {
    NoneWrong(checks[0], checks[1], checks[2], checks[3]);
    assert checks == [checks[0], checks[1], checks[2], checks[3]];
  }

  lemma {:induction false} SingleProbe(spec: Spec, branch: SchemaRef, v: Value)
    requires Founded(spec)
    ensures Matches(spec, [branch], v) == 1 <==> Accepting(spec, [branch], v) != {}
    decreases v, BranchesLevel(RankOf(spec), [branch]), 5, 0
  {
    MatchesCounts(spec, [branch], v);
    var hits := Accepting(spec, [branch], v);
    assert hits == {} || hits == {0};
  }

  /** The validator reports nothing exactly for the values its schema accepts. */
  lemma ValidatorDecides(spec: Spec, schema: Schema, v: Value, loc: Location, field: string)
    requires Founded(spec)
    ensures Validate(spec, schema, v, loc, field) == [] <==> Accepts(spec, schema, v, {})
  {
    ValidateIsExact(spec, schema, v, loc, field, {});
    CleanMeansNoneLeft(Validate(spec, schema, v, loc, field), {});
    NobodyForgiven(Validate(spec, schema, v, loc, field));
  }
}
