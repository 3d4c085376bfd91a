/** What every single error says: which keyword failed, and which part of the value failed it. */
module Blame {
  import opened Strings
  import opened Json
  import opened Keys
  import opened Schemas
  import opened Validator
  import opened Acceptance
  import Multiples

  // ---- leaves ----

  predicate StringBlamed(spec: Spec, k: Kind, v: Value, code: Code)
    requires k.StringType?
  {
    if !v.Str? then code == TypeCode
    else if k.texts != [] && Some(v.s) !in k.texts then code == EnumCode
    else
      match code
      case MinLengthCode => k.minLength.Some? && |v.s| < k.minLength.value
      case MaxLengthCode => k.maxLength.Some? && k.maxLength.value < |v.s|
      case PatternCode => k.pattern.Some? && !spec.matchesPattern(k.pattern.value, v.s)
      case FormatCode => k.format.Some? && !spec.matchesFormat(k.format.value, v.s)
      case _ => false
  }

  /** A whole number that a signed integer of that many bits holds. */
  predicate FitsBits(v: Value, bits: nat)
    requires bits in {32, 64}
  {
    && v.Num? && v.n.Whole?
    && (bits == 32 ==> -2147483648 <= v.n.i <= 2147483647)
    && (bits == 64 ==> -9223372036854775808 <= v.n.i <= 9223372036854775807)
  }

  ghost predicate IntegerBlamed(k: Kind, v: Value, code: Code)
    requires k.IntegerType?
  {
    if !FitsBits(v, 64) then code == TypeCode
    else if k.int32 && !FitsBits(v, 32) then code == FormatCode
    else if k.ints != [] && Some(v.n.i) !in k.ints then code == EnumCode
    else
      match code
      case MinimumCode => k.intMin.Some? && !k.aboveMin && v.n.i < k.intMin.value
      case ExclusiveMinimumCode => k.intMin.Some? && k.aboveMin && v.n.i <= k.intMin.value
      case MaximumCode => k.intMax.Some? && !k.belowMax && k.intMax.value < v.n.i
      case ExclusiveMaximumCode => k.intMax.Some? && k.belowMax && k.intMax.value <= v.n.i
      case MultipleOfCode =>
        k.intMultiple.Some? && k.intMultiple.value != 0 && forall q: int :: v.n.i != Times(q, k.intMultiple.value)
      case _ => false
  }

  function Times(q: int, m: int): int {
    q * m
  }

  /** Equal up to 2^-46 of the larger one, or of one where both are smaller. */
  predicate Close(a: real, b: real) {
    var gap := 70368744177664.0 * Distance(a, b);
    gap <= 1.0 || gap <= Distance(a, 0.0) || gap <= Distance(b, 0.0)
  }

  function Distance(a: real, b: real): real {
    if a < b then b - a else a - b
  }

  /** Less than 2^-52 away from `z`. */
  predicate Near(q: real, z: int) {
    Distance(q, z as real) * 4503599627370496.0 < 1.0
  }

  ghost predicate NearWhole(q: real) {
    exists z: int :: Near(q, z)
  }

  ghost predicate NumberBlamed(k: Kind, v: Value, code: Code)
    requires k.NumberType?
  {
    if !v.Num? then code == TypeCode
    else if k.reals != [] && forall x | x in k.reals && x.Some? :: !Close(x.value, AsReal(v.n)) then code == EnumCode
    else BoundBlamed(k, AsReal(v.n), code)
  }

  ghost predicate BoundBlamed(k: Kind, r: real, code: Code)
    requires k.NumberType?
  {
    match code
    case MinimumCode => k.realMin.Some? && !k.overMin && r < k.realMin.value
    case ExclusiveMinimumCode => k.realMin.Some? && k.overMin && r <= k.realMin.value
    case MaximumCode => k.realMax.Some? && !k.underMax && k.realMax.value < r
    case ExclusiveMaximumCode => k.realMax.Some? && k.underMax && k.realMax.value <= r
    case MultipleOfCode => k.realMultiple.Some? && k.realMultiple.value != 0.0 && !NearWhole(r / k.realMultiple.value)
    case _ => false
  }

  predicate BooleanBlamed(k: Kind, v: Value, code: Code)
    requires k.BooleanType?
  {
    if !v.Bool? then code == TypeCode else code == EnumCode && k.bools != [] && Some(v.b) !in k.bools
  }

  predicate WrongType(typ: string, v: Value) {
    || (typ == "string" && !v.Str?) || (typ == "integer" && !FitsBits(v, 64)) || (typ == "number" && !v.Num?)
    || (typ == "boolean" && !v.Bool?) || (typ == "object" && !v.Obj?) || (typ == "array" && !v.Arr?)
  }

  // ---- names ----

  /** `name` is the last dotted part of a field. */
  predicate LastPart(field: string, name: string) {
    '.' !in name && (field == name || EndsWith(field, "." + name))
  }

  predicate NamesProperty(properties: seq<Property>, name: string) {
    exists p | p in properties :: p.name == name
  }

  /** Some branch that resolves to an object schema, or to one without a type, declares the property. */
  predicate SiblingsDeclare(spec: Spec, branches: seq<SchemaRef>, name: string) {
    exists b | b in branches ::
      && ResolveSchema(spec, b).Some?
      && var k := ResolveSchema(spec, b).value.kind; (k.ObjectType? || k.AnyType?) && NamesProperty(k.properties, name)
  }

  // ---- the whole value ----

  /**
   * `v` gives cause for an error with that code at that field, `field` being where `v` itself is found: the failing
   * keyword named by the code, the property or item that fails it by the field.
   */
  ghost predicate Blames(spec: Spec, schema: Schema, v: Value, field: string, at: string, code: Code)
    requires Founded(spec)
    decreases v, Order(spec, schema), 2
  {
    && !(v.Null? && schema.nullable)
    && match schema.kind
       case StringType(_, _, _, _, _) => at == field && StringBlamed(spec, schema.kind, v, code)
       case IntegerType(_, _, _, _, _, _, _) => at == field && IntegerBlamed(schema.kind, v, code)
       case NumberType(_, _, _, _, _, _) => at == field && NumberBlamed(schema.kind, v, code)
       case BooleanType(_) => at == field && BooleanBlamed(schema.kind, v, code)
       case ObjectType(_, _, _) => ObjectBlames(spec, schema.kind, v, field, at, code)
       case ArrayType(_, _, _, _) => ArrayBlames(spec, schema.kind, v, field, at, code)
       case OneOf(branches) =>
         if Named(spec, schema, v).Some? then
           NamedIsLower(spec, schema, v);
           Blames(spec, Named(spec, schema, v).value, v, field, at, code)
         else at == field && code == OneOfCode && |Accepting(spec, branches, v)| != 1
       case AnyOf(branches) => at == field && code == AnyOfCode && Accepting(spec, branches, v) == {}
       case AllOf(branches) => exists i: nat | i < |branches| :: BranchBlames(spec, branches, i, v, field, at, code)
       case Not(branch) => at == field && code == NotCode && Accepting(spec, [branch], v) != {}
       case AnyType(_, _, _, _, _, _, _) => AnyBlames(spec, schema, v, field, at, code)
  }

  ghost predicate RequiredBlames(required: seq<string>, v: Value, field: string, at: string, code: Code)
    requires v.Obj?
  {
    code == RequiredCode && exists name | name in required :: name !in v.fields && at == field + "." + name
  }

  ghost predicate PropertiesBlame(spec: Spec, properties: seq<Property>, v: Value, field: string, at: string,
                                  code: Code)
    requires Founded(spec) && v.Obj?
    decreases v, 0, 0
  {
    exists p | p in properties && p.name in v.fields && ResolveSchema(spec, p.schema).Some? ::
      Blames(spec, ResolveSchema(spec, p.schema).value, v.fields[p.name], field + "." + p.name, at, code)
  }

  /** An additional property is refused, or fails the schema for additional ones. */
  ghost predicate ExtraBlames(spec: Spec, k: Kind, v: Value, field: string, at: string, code: Code)
    requires Founded(spec) && k.ObjectType? && v.Obj?
    decreases v, 0, 0
  {
    || (&& k.additional == Permitted(false) && code == AdditionalPropertiesCode
        && exists key | key in v.fields :: !NamesProperty(k.properties, key) && at == field + "." + key)
    || (&& k.additional.Constrained? && ResolveSchema(spec, k.additional.schema).Some?
        && exists key | key in v.fields && !NamesProperty(k.properties, key) ::
             Blames(spec, ResolveSchema(spec, k.additional.schema).value, v.fields[key], field + "." + key, at, code))
  }

  ghost predicate ObjectBlames(spec: Spec, k: Kind, v: Value, field: string, at: string, code: Code)
    requires Founded(spec) && k.ObjectType?
    decreases v, 0, 1
  {
    if !v.Obj? then at == field && code == TypeCode
    else
      || RequiredBlames(k.required, v, field, at, code)
      || PropertiesBlame(spec, k.properties, v, field, at, code)
      || ExtraBlames(spec, k, v, field, at, code)
  }

  predicate LengthBlamed(k: Kind, items: seq<Value>, code: Code)
    requires k.ArrayType?
  {
    match code
    case MinItemsCode => k.minItems.Some? && |items| < k.minItems.value
    case MaxItemsCode => k.maxItems.Some? && k.maxItems.value < |items|
    case UniqueItemsCode => k.unique && exists i, j | 0 <= i < j < |items| :: items[i] == items[j]
    case _ => false
  }

  ghost predicate ItemsBlame(spec: Spec, item: Schema, v: Value, from: nat, field: string, at: string, code: Code)
    requires Founded(spec) && v.Arr?
    decreases v, 0, 0
  {
    exists i: nat | from <= i < |v.items| ::
      Blames(spec, item, v.items[i], field + "[" + Decimal(i) + "]", at, code)
  }

  ghost predicate ArrayBlames(spec: Spec, k: Kind, v: Value, field: string, at: string, code: Code)
    requires Founded(spec) && k.ArrayType?
    decreases v, 0, 1
  {
    if !v.Arr? then at == field && code == TypeCode
    else
      || (at == field && LengthBlamed(k, v.items, code))
      || (&& k.items.Some? && ResolveSchema(spec, k.items.value).Some?
          && ItemsBlame(spec, ResolveSchema(spec, k.items.value).value, v, 0, field, at, code))
  }

  /** A branch of `allOf` gives cause, and not for an undeclared property that its siblings declare. */
  ghost predicate BranchBlames(spec: Spec, branches: seq<SchemaRef>, i: nat, v: Value, field: string, at: string,
                               code: Code)
    requires Founded(spec) && i < |branches|
    decreases v, BranchesLevel(RankOf(spec), branches), 3
  {
    BranchLevel(spec, branches, i);
    && ResolveSchema(spec, branches[i]).Some?
    && var sub := ResolveSchema(spec, branches[i]).value;
       && Blames(spec, sub, v, field, at, code)
       && !(&& (sub.kind.ObjectType? || sub.kind.AnyType?) && code == AdditionalPropertiesCode
            && exists name :: LastPart(at, name) && SiblingsDeclare(spec, branches, name))
  }

  ghost predicate AnyBlames(spec: Spec, schema: Schema, v: Value, field: string, at: string, code: Code)
    requires Founded(spec) && schema.kind.AnyType?
    decreases v, Order(spec, schema), 1
  {
    var k := schema.kind;
    assert k.excluded.Some? ==> BranchesLevel(RankOf(spec), [k.excluded.value]) < Order(spec, schema) by {
      if k.excluded.Some? {
        OneBranchLevel(RankOf(spec), k.excluded.value);
      }
    }
    if k.typ.Some? && WrongType(k.typ.value, v) then at == field && code == TypeCode
    else
      || (at == field && AnyKeywordBlamed(spec, k, v, code))
      || (at == field && code == NotCode && k.excluded.Some? && Accepting(spec, [k.excluded.value], v) != {})
      || (v.Obj? && RequiredBlames(k.required, v, field, at, code))
      || (v.Obj? && PropertiesBlame(spec, k.properties, v, field, at, code))
  }

  predicate AnyKeywordBlamed(spec: Spec, k: Kind, v: Value, code: Code)
    requires k.AnyType?
  {
    match code
    case EnumCode => k.values != [] && v !in k.values
    case PatternCode => v.Str? && k.anyPattern.Some? && !spec.matchesPattern(k.anyPattern.value, v.s)
    case FormatCode => v.Str? && k.anyFormat.Some? && !spec.matchesFormat(k.anyFormat.value, v.s)
    case _ => false
  }

  // ---- the leaves are read alike ----

  lemma JoinHas(a: seq<Error>, b: seq<Error>, e: Error)
    ensures e in a + b <==> e in a || e in b
  {
  }

  lemma {:induction false} FailingHas(checks: seq<Check>, loc: Location, field: string, e: Error)
    ensures e in Failing(checks, loc, field) <==>
              e.location == loc && e.field == field && exists c | c in checks :: c.wrong && c.code == e.code
  {
    if checks != [] {
      FailingHas(checks[1..], loc, field, e);
      assert checks == [checks[0]] + checks[1..];
    }
  }

  lemma FourHave(a: Check, b: Check, c: Check, d: Check, loc: Location, field: string, e: Error)
    ensures e in Failing([a, b, c, d], loc, field) <==>
              && e.location == loc && e.field == field
              && (|| (a.wrong && a.code == e.code) || (b.wrong && b.code == e.code)
                  || (c.wrong && c.code == e.code) || (d.wrong && d.code == e.code))
  {
    var checks := [a, b, c, d];
    FailingHas(checks, loc, field, e);
    assert a in checks && b in checks && c in checks && d in checks;
  }

  lemma ThreeHave(a: Check, b: Check, c: Check, loc: Location, field: string, e: Error)
    ensures e in Failing([a, b, c], loc, field) <==>
              && e.location == loc && e.field == field
              && (|| (a.wrong && a.code == e.code) || (b.wrong && b.code == e.code) || (c.wrong && c.code == e.code))
  {
    var checks := [a, b, c];
    FailingHas(checks, loc, field, e);
    assert a in checks && b in checks && c in checks;
  }

  lemma StringSays(spec: Spec, k: Kind, v: Value, loc: Location, field: string, e: Error)
    requires k.StringType?
    ensures e in StringErrors(spec, k, v, loc, field) <==>
              e.location == loc && e.field == field && StringBlamed(spec, k, v, e.code)
  {
    if v.Str? && !(k.texts != [] && Some(v.s) !in k.texts) {
      FourHave(Check(k.minLength.Some? && |v.s| < k.minLength.value, MinLengthCode),
               Check(k.maxLength.Some? && |v.s| > k.maxLength.value, MaxLengthCode),
               Check(k.pattern.Some? && !spec.matchesPattern(k.pattern.value, v.s), PatternCode),
               Check(k.format.Some? && !spec.matchesFormat(k.format.value, v.s), FormatCode), loc, field, e);
    }
  }

  lemma MultipleIs(n: int, m: int)
    requires m != 0
    ensures n % m == 0 <==> exists q: int :: n == Times(q, m)
  {
    if n % m == 0 {
      assert n == Times(n / m, m);
    }
    forall q: int | n == Times(q, m)
      ensures n % m == 0
    {
      QuotientLeavesNothing(q, m);
    }
  }

  lemma QuotientLeavesNothing(q: int, m: int)
    requires m != 0
    ensures q * m % m == 0
  {
    if m > 0 {
      Multiples.Multiple(q, m);
    } else {
      var n, p := q * m, -m;
      var t := n % m;
      NegatedFactor(q, m);
      NegatedFactor(n / m, m);
      Multiples.Multiple(-q, p);
      Multiples.Multiple(-(n / m), p);
      if t > 0 {
        Multiples.Apart(n - t, n, p);
      }
    }
  }

  lemma NegatedFactor(q: int, m: int)
    ensures q * m == (-q) * (-m)
  {
  }

  lemma IntegerSays(k: Kind, v: Value, loc: Location, field: string, e: Error)
    requires k.IntegerType?
    ensures e in IntegerErrors(k, v, loc, field) <==>
              e.location == loc && e.field == field && IntegerBlamed(k, v, e.code)
  {
    if FitsBits(v, 64) && !(k.int32 && !FitsBits(v, 32)) && !(k.ints != [] && Some(v.n.i) !in k.ints) {
      var checks := IntegerChecks(k, v.n.i);
      assert checks == [checks[0], checks[1], checks[2]];
      ThreeHave(checks[0], checks[1], checks[2], loc, field, e);
      if k.intMultiple.Some? && k.intMultiple.value != 0 {
        MultipleIs(v.n.i, k.intMultiple.value);
      }
    }
  }

  lemma CloseIs(a: real, b: real)
    ensures Close(a, b) <==> FloatEq(a, b)
  {
  }

  lemma NearWholeIs(r: real, m: real)
    requires m != 0.0
    ensures NearWhole(r / m) <==> NearMultiple(r, m)
  {
    NearestWhole(r / m);
  }

  /** Only the whole numbers on either side can be that near. */
  lemma NearestWhole(q: real)
    ensures NearWhole(q) <==> Near(q, q.Floor) || Near(q, q.Floor + 1)
    ensures NearWhole(q) <==> Abs(Remainder(q)) < EPSILON || Abs(1.0 - Abs(Remainder(q))) < EPSILON
  {
    forall z | Near(q, z)
      ensures z == q.Floor || z == q.Floor + 1
    {
      NearIsBeside(q, z);
    }
    LeftOver(q);
  }

  lemma NearIsBeside(q: real, z: int)
    requires Near(q, z)
    ensures z == q.Floor || z == q.Floor + 1
  {
    assert Distance(q, z as real) < 1.0;
  }

  lemma Tiny(x: real)
    ensures x * 4503599627370496.0 < 1.0 <==> x < EPSILON
  {
  }

  lemma LeftOver(q: real)
    ensures Near(q, q.Floor) || Near(q, q.Floor + 1) <==>
              Abs(Remainder(q)) < EPSILON || Abs(1.0 - Abs(Remainder(q))) < EPSILON
  {
    var part := q - q.Floor as real;
    Tiny(Distance(q, q.Floor as real));
    Tiny(Distance(q, (q.Floor + 1) as real));
    assert Distance(q, q.Floor as real) == part;
    assert Distance(q, (q.Floor + 1) as real) == 1.0 - part;
    RemainderIs(q);
  }

  lemma RemainderIs(q: real)
    ensures var part := q - q.Floor as real;
            && 0.0 <= part < 1.0
            && Remainder(q) == if q >= 0.0 || part == 0.0 then part else part - 1.0
  {
    var f := q.Floor;
    if q < 0.0 {
      if q == f as real {
        FloorIs(-q, -f);
      } else {
        FloorIs(-q, -f - 1);
      }
    }
  }

  lemma FloorIs(q: real, z: int)
    requires z as real <= q < z as real + 1.0
    ensures q.Floor == z
  {
    assert q.Floor as real <= q < q.Floor as real + 1.0;
  }

  lemma ListedIs(options: seq<Option<real>>, r: real)
    ensures RealListed(options, r) <==> exists x | x in options && x.Some? :: Close(x.value, r)
  {
    forall x | x in options && x.Some?
      ensures Close(x.value, r) <==> FloatEq(x.value, r)
    {
      CloseIs(x.value, r);
    }
  }

  lemma BoundsSay(k: Kind, r: real, loc: Location, field: string, e: Error)
    requires k.NumberType?
    ensures e in Failing([Check(k.realMin.Some? && !(if k.overMin then r > k.realMin.value else r >= k.realMin.value),
                                if k.overMin then ExclusiveMinimumCode else MinimumCode),
                          Check(k.realMax.Some? && !(if k.underMax then r < k.realMax.value else r <= k.realMax.value),
                                if k.underMax then ExclusiveMaximumCode else MaximumCode),
                          Check(k.realMultiple.Some? && k.realMultiple.value != 0.0 &&
                                !NearMultiple(r, k.realMultiple.value),
                                MultipleOfCode)], loc, field) <==>
              e.location == loc && e.field == field && BoundBlamed(k, r, e.code)
  {
    ThreeHave(Check(k.realMin.Some? && !(if k.overMin then r > k.realMin.value else r >= k.realMin.value),
                    if k.overMin then ExclusiveMinimumCode else MinimumCode),
              Check(k.realMax.Some? && !(if k.underMax then r < k.realMax.value else r <= k.realMax.value),
                    if k.underMax then ExclusiveMaximumCode else MaximumCode),
              Check(k.realMultiple.Some? && k.realMultiple.value != 0.0 && !NearMultiple(r, k.realMultiple.value),
                    MultipleOfCode), loc, field, e);
    if k.realMultiple.Some? && k.realMultiple.value != 0.0 {
      NearWholeIs(r, k.realMultiple.value);
    }
  }

  lemma NumberSays(k: Kind, v: Value, loc: Location, field: string, e: Error)
    requires k.NumberType?
    ensures e in NumberErrors(k, v, loc, field) <==>
              e.location == loc && e.field == field && NumberBlamed(k, v, e.code)
  {
    if v.Num? {
      ListedIs(k.reals, AsReal(v.n));
      BoundsSay(k, AsReal(v.n), loc, field, e);
    }
  }

  lemma TypeIs(typ: string, v: Value)
    ensures WrongType(typ, v) <==> !TypeFits(typ, v)
  {
  }

  lemma NamesPropertyIs(properties: seq<Property>, name: string)
    ensures NamesProperty(properties, name) <==> Declares(properties, name)
  {
  }

  lemma EndHas(s: string, tail: string)
    requires EndsWith(s, tail) && tail != ""
    ensures tail[0] in s
  {
    assert s[|s| - |tail|..][0] == tail[0];
  }

  lemma {:induction false} LastPartIs(field: string, name: string)
    ensures LastPart(field, name) <==> name == LastSegment(field)
    decreases |field|
  {
    var tail := "." + name;
    assert tail[0] == '.' && tail[1..] == name;
    if EndsWith(field, tail) {
      EndHas(field, tail);
    }
    if '.' in field {
      LastPartIs(field[1..], name);
      assert field == [field[0]] + field[1..];
      if |tail| < |field| {
        assert field[|field| - |tail|..] == field[1..][|field[1..]| - |tail|..];
      } else if |tail| == |field| {
        assert field[0..] == field;
      }
      if field == tail {
        assert field[1..] == name;
      }
      if '.' !in name && field[1..] == name {
        assert field[0] == '.';
        assert field == tail;
      }
    }
  }

  lemma {:induction false} SiblingsDeclareIs(spec: Spec, branches: seq<SchemaRef>, name: string)
    ensures SiblingsDeclare(spec, branches, name) <==> name in Declared(spec, branches)
  {
    if branches != [] {
      SiblingsDeclareIs(spec, branches[1..], name);
      assert branches == [branches[0]] + branches[1..];
    }
  }

  // ---- every error is accounted for ----

  ghost predicate Says(e: Error, loc: Location, blamed: bool) {
    e.location == loc && blamed
  }

  lemma {:induction false} RequiredSays(required: seq<string>, v: Value, loc: Location, field: string, e: Error)
    requires v.Obj?
    ensures e in RequiredErrors(required, v.fields, loc, field) <==>
              Says(e, loc, RequiredBlames(required, v, field, e.field, e.code))
  {
    if required != [] {
      RequiredSays(required[1..], v, loc, field, e);
      assert required == [required[0]] + required[1..];
    }
  }

  lemma {:induction false} ClosedSays(properties: seq<Property>, keys: seq<string>, loc: Location, field: string,
                                      e: Error)
    ensures e in ClosedErrors(properties, keys, loc, field) <==>
              && e.location == loc && e.code == AdditionalPropertiesCode
              && exists key | key in keys :: !NamesProperty(properties, key) && e.field == field + "." + key
  {
    if keys != [] {
      ClosedSays(properties, keys[1..], loc, field, e);
      NamesPropertyIs(properties, keys[0]);
      assert keys == [keys[0]] + keys[1..];
    }
  }

  /**
   * For every founded specification, schema and value, the list of errors holds an error exactly if the value gives
   * cause for it: where its field says, by the keyword its code names.
   */
  lemma {:induction false} ErrorsAreCauses(spec: Spec, schema: Schema, v: Value, loc: Location, field: string, e: Error)
    requires Founded(spec)
    ensures e in Validate(spec, schema, v, loc, field) <==>
              e.location == loc && Blames(spec, schema, v, field, e.field, e.code)
    decreases v, Order(spec, schema), 2, 1
  {
    if !(v.Null? && schema.nullable) {
      match schema.kind
      case ObjectType(_, _, _) => ObjectSays(spec, schema.kind, v, loc, field, e);
      case ArrayType(_, _, _, _) => ArraySays(spec, schema.kind, v, loc, field, e);
      case OneOf(_) => OneOfSays(spec, schema, v, loc, field, e);
      case AnyOf(_) => AnyOfSays(spec, schema, v, loc, field, e);
      case AllOf(_) => AllOfSays(spec, schema, v, loc, field, e);
      case Not(_) => NotSays(spec, schema, v, loc, field, e);
      case AnyType(_, _, _, _, _, _, _) => AnySays(spec, schema, v, loc, field, e);
      case _ => LeafSays(spec, schema, v, loc, field, e);
    }
  }

  lemma LeafSays(spec: Spec, schema: Schema, v: Value, loc: Location, field: string, e: Error)
    requires Founded(spec) && !(v.Null? && schema.nullable)
    requires schema.kind.StringType? || schema.kind.IntegerType? || schema.kind.NumberType? || schema.kind.BooleanType?
    ensures e in Validate(spec, schema, v, loc, field) <==>
              e.location == loc && Blames(spec, schema, v, field, e.field, e.code)
  {
    match schema.kind
    case StringType(_, _, _, _, _) => StringSays(spec, schema.kind, v, loc, field, e);
    case IntegerType(_, _, _, _, _, _, _) => IntegerSays(schema.kind, v, loc, field, e);
    case NumberType(_, _, _, _, _, _) => NumberSays(schema.kind, v, loc, field, e);
    case BooleanType(_) =>
  }

  lemma {:induction false} AnyOfSays(spec: Spec, schema: Schema, v: Value, loc: Location, field: string, e: Error)
    requires Founded(spec) && !(v.Null? && schema.nullable) && schema.kind.AnyOf?
    ensures e in Validate(spec, schema, v, loc, field) <==>
              e.location == loc && Blames(spec, schema, v, field, e.field, e.code)
  {
    MatchesCounts(spec, schema.kind.branches, v);
  }

  lemma {:induction false} NotSays(spec: Spec, schema: Schema, v: Value, loc: Location, field: string, e: Error)
    requires Founded(spec) && !(v.Null? && schema.nullable) && schema.kind.Not?
    ensures e in Validate(spec, schema, v, loc, field) <==>
              e.location == loc && Blames(spec, schema, v, field, e.field, e.code)
  {
    OneBranchLevel(RankOf(spec), schema.kind.branch);
    SingleProbe(spec, schema.kind.branch, v);
  }

  lemma {:induction false} OneOfSays(spec: Spec, schema: Schema, v: Value, loc: Location, field: string, e: Error)
    requires Founded(spec) && !(v.Null? && schema.nullable) && schema.kind.OneOf?
    ensures e in Validate(spec, schema, v, loc, field) <==>
              e.location == loc && Blames(spec, schema, v, field, e.field, e.code)
    decreases v, Order(spec, schema), 2, 0
  {
    DiscriminatedIsNamed(spec, schema, v);
    if Discriminated(spec, schema, v).Some? {
      DiscriminatedIsLower(spec, schema, v);
      ErrorsAreCauses(spec, Discriminated(spec, schema, v).value, v, loc, field, e);
    } else {
      MatchesCounts(spec, schema.kind.branches, v);
    }
  }

  lemma {:induction false} AllOfSays(spec: Spec, schema: Schema, v: Value, loc: Location, field: string, e: Error)
    requires Founded(spec) && !(v.Null? && schema.nullable) && schema.kind.AllOf?
    ensures e in Validate(spec, schema, v, loc, field) <==>
              e.location == loc && Blames(spec, schema, v, field, e.field, e.code)
    decreases v, Order(spec, schema), 2, 0
  {
    var branches := schema.kind.branches;
    assert branches[0..] == branches;
    BranchesSay(spec, branches, 0, v, loc, field, e);
  }

  lemma {:induction false} ObjectSays(spec: Spec, k: Kind, v: Value, loc: Location, field: string, e: Error)
    requires Founded(spec) && k.ObjectType?
    ensures e in ObjectErrors(spec, k, v, loc, field) <==>
              e.location == loc && ObjectBlames(spec, k, v, field, e.field, e.code)
    decreases v, 0, 1, 0
  {
    if v.Obj? {
      var keys := Sorted(v.fields.Keys);
      var a := RequiredErrors(k.required, v.fields, loc, field);
      var b := PropertyErrors(spec, k.properties, v, loc, field);
      JoinHas(a + b, AdditionalErrors(spec, k.properties, k.additional, keys, v, loc, field), e);
      JoinHas(a, b, e);
      RequiredSays(k.required, v, loc, field, e);
      PropertiesSay(spec, k.properties, v, loc, field, e);
      match k.additional
      case Unspecified =>
      case Permitted(yes) => ClosedSays(k.properties, keys, loc, field, e);
      case Constrained(extra) => ExtrasSay(spec, k.properties, extra, keys, v, loc, field, e);
    }
  }

  lemma {:induction false} PropertiesSay(spec: Spec, properties: seq<Property>, v: Value, loc: Location,
                                         field: string, e: Error)
    requires Founded(spec) && v.Obj?
    ensures e in PropertyErrors(spec, properties, v, loc, field) <==>
              e.location == loc && PropertiesBlame(spec, properties, v, field, e.field, e.code)
    decreases v, 0, 0, |properties|
  {
    if properties != [] {
      var p := properties[0];
      PropertiesSay(spec, properties[1..], v, loc, field, e);
      assert properties == [p] + properties[1..];
      var sub := ResolveSchema(spec, p.schema);
      if p.name in v.fields && sub.Some? {
        ErrorsAreCauses(spec, sub.value, v.fields[p.name], loc, Child(field, p.name), e);
      }
    }
  }

  lemma {:induction false} ExtrasSay(spec: Spec, properties: seq<Property>, extra: SchemaRef, keys: seq<string>,
                                     v: Value, loc: Location, field: string, e: Error)
    requires Founded(spec) && v.Obj? && forall k | k in keys :: k in v.fields
    ensures e in AdditionalErrors(spec, properties, Constrained(extra), keys, v, loc, field) <==>
              && e.location == loc && ResolveSchema(spec, extra).Some?
              && exists k | k in keys && !NamesProperty(properties, k) ::
                   Blames(spec, ResolveSchema(spec, extra).value, v.fields[k], field + "." + k, e.field, e.code)
    decreases v, 0, 0, |keys|
  {
    var sub := ResolveSchema(spec, extra);
    if keys != [] && sub.Some? {
      var k := keys[0];
      ExtrasSay(spec, properties, extra, keys[1..], v, loc, field, e);
      assert keys == [k] + keys[1..];
      NamesPropertyIs(properties, k);
      if !Declares(properties, k) {
        ErrorsAreCauses(spec, sub.value, v.fields[k], loc, Child(field, k), e);
      }
    }
  }

  lemma LengthSays(k: Kind, items: seq<Value>, loc: Location, field: string, e: Error)
    requires k.ArrayType?
    ensures e in Failing([Check(k.minItems.Some? && |items| < k.minItems.value, MinItemsCode),
                          Check(k.maxItems.Some? && |items| > k.maxItems.value, MaxItemsCode)], loc, field)
            || e in Complain(k.unique && HasDuplicates(items), loc, field, UniqueItemsCode) <==>
              e.location == loc && e.field == field && LengthBlamed(k, items, e.code)
  {
    var few := Check(k.minItems.Some? && |items| < k.minItems.value, MinItemsCode);
    var many := Check(k.maxItems.Some? && |items| > k.maxItems.value, MaxItemsCode);
    FailingHas([few, many], loc, field, e);
    assert few in [few, many] && many in [few, many];
  }

  lemma {:induction false} ArraySays(spec: Spec, k: Kind, v: Value, loc: Location, field: string, e: Error)
    requires Founded(spec) && k.ArrayType?
    ensures e in ArrayErrors(spec, k, v, loc, field) <==>
              e.location == loc && ArrayBlames(spec, k, v, field, e.field, e.code)
    decreases v, 0, 1, 0
  {
    if v.Arr? {
      var a := Failing([Check(k.minItems.Some? && |v.items| < k.minItems.value, MinItemsCode),
                        Check(k.maxItems.Some? && |v.items| > k.maxItems.value, MaxItemsCode)], loc, field);
      var c := EachItemErrors(spec, k.items, v, loc, field);
      var d := Complain(k.unique && HasDuplicates(v.items), loc, field, UniqueItemsCode);
      JoinHas(a + c, d, e);
      JoinHas(a, c, e);
      LengthSays(k, v.items, loc, field, e);
      EachItemSays(spec, k.items, v, loc, field, e);
    }
  }

  lemma {:induction false} EachItemSays(spec: Spec, items: Option<SchemaRef>, v: Value, loc: Location, field: string,
                                        e: Error)
    requires Founded(spec) && v.Arr?
    ensures e in EachItemErrors(spec, items, v, loc, field) <==>
              && e.location == loc && items.Some? && ResolveSchema(spec, items.value).Some?
              && ItemsBlame(spec, ResolveSchema(spec, items.value).value, v, 0, field, e.field, e.code)
    decreases v, 0, 0, |v.items| + 1
  {
    if items.Some? && ResolveSchema(spec, items.value).Some? {
      ItemsSay(spec, ResolveSchema(spec, items.value).value, v, 0, loc, field, e);
    }
  }

  lemma {:induction false} ItemsSay(spec: Spec, item: Schema, v: Value, i: nat, loc: Location, field: string, e: Error)
    requires Founded(spec) && v.Arr? && i <= |v.items|
    ensures e in ItemErrors(spec, item, v, i, loc, field) <==>
              e.location == loc && ItemsBlame(spec, item, v, i, field, e.field, e.code)
    decreases v, 0, 0, |v.items| - i
  {
    if i < |v.items| {
      ItemsSay(spec, item, v, i + 1, loc, field, e);
      ErrorsAreCauses(spec, item, v.items[i], loc, Indexed(field, i), e);
      JoinHas(Validate(spec, item, v.items[i], loc, Indexed(field, i)), ItemErrors(spec, item, v, i + 1, loc, field),
              e);
      assert Indexed(field, i) == field + "[" + Decimal(i) + "]";
    }
  }

  lemma {:induction false} UnforgivenHas(errors: seq<Error>, spec: Spec, branches: seq<SchemaRef>, e: Error)
    ensures e in Unforgiven(errors, Declared(spec, branches)) <==>
              && e in errors
              && !(&& e.code == AdditionalPropertiesCode
                   && exists name :: LastPart(e.field, name) && SiblingsDeclare(spec, branches, name))
  {
    UnforgivenKeepsRest(errors, Declared(spec, branches));
    var last := LastSegment(e.field);
    LastPartIs(e.field, last);
    SiblingsDeclareIs(spec, branches, last);
    forall name | LastPart(e.field, name)
      ensures name == last
    {
      LastPartIs(e.field, name);
    }
  }

  lemma {:induction false} BranchSays(spec: Spec, branches: seq<SchemaRef>, i: nat, v: Value, loc: Location,
                                      field: string, e: Error)
    requires Founded(spec) && i < |branches| && ResolveSchema(spec, branches[i]).Some?
    ensures var sub := ResolveSchema(spec, branches[i]).value;
            e in FilteredErrors(spec, sub, Declared(spec, branches), v, loc, field) <==>
              e.location == loc && BranchBlames(spec, branches, i, v, field, e.field, e.code)
    decreases v, BranchesLevel(RankOf(spec), branches), 2, 5
  {
    BranchLevel(spec, branches, i);
    var sub := ResolveSchema(spec, branches[i]).value;
    ErrorsAreCauses(spec, sub, v, loc, field, e);
    UnforgivenHas(Validate(spec, sub, v, loc, field), spec, branches, e);
  }

  ghost predicate SomeBranchBlames(spec: Spec, branches: seq<SchemaRef>, from: nat, v: Value, field: string,
                                   at: string, code: Code)
    requires Founded(spec)
  {
    exists j: nat | from <= j < |branches| :: BranchBlames(spec, branches, j, v, field, at, code)
  }

  lemma {:induction false} BranchesSay(spec: Spec, branches: seq<SchemaRef>, i: nat, v: Value, loc: Location,
                                       field: string, e: Error)
    requires Founded(spec) && i <= |branches|
    ensures e in BranchErrors(spec, branches[i..], Declared(spec, branches), v, loc, field) <==>
              e.location == loc && SomeBranchBlames(spec, branches, i, v, field, e.field, e.code)
    decreases v, BranchesLevel(RankOf(spec), branches), 3, |branches| - i
  {
    if i < |branches| {
      BranchesSay(spec, branches, i + 1, v, loc, field, e);
      var first, rest := branches[i..][0], branches[i..][1..];
      assert first == branches[i] && rest == branches[i + 1..];
      var sub := ResolveSchema(spec, first);
      if sub.Some? {
        BranchSays(spec, branches, i, v, loc, field, e);
        JoinHas(FilteredErrors(spec, sub.value, Declared(spec, branches), v, loc, field),
                BranchErrors(spec, rest, Declared(spec, branches), v, loc, field), e);
      } else {
        NoBranchNoBlame(spec, branches, i, v, field, e.field, e.code);
      }
    }
  }

  lemma NoBranchNoBlame(spec: Spec, branches: seq<SchemaRef>, i: nat, v: Value, field: string, at: string, code: Code)
    requires Founded(spec) && i < |branches| && ResolveSchema(spec, branches[i]).None?
    ensures !BranchBlames(spec, branches, i, v, field, at, code)
  {
  }

  lemma {:induction false} AnyChecksSay(spec: Spec, schema: Schema, v: Value, loc: Location, field: string, e: Error)
    requires Founded(spec) && schema.kind.AnyType?
    ensures var k := schema.kind;
            e in Failing(AnyChecks(spec, schema, v), loc, field) <==>
              && e.location == loc && e.field == field
              && (|| AnyKeywordBlamed(spec, k, v, e.code)
                  || (e.code == NotCode && k.excluded.Some? && Accepting(spec, [k.excluded.value], v) != {}))
    decreases v, Order(spec, schema), 0, 0
  {
    var k := schema.kind;
    if k.excluded.Some? {
      OneBranchLevel(RankOf(spec), k.excluded.value);
      SingleProbe(spec, k.excluded.value, v);
    }
    var checks := AnyChecks(spec, schema, v);
    assert checks == [checks[0], checks[1], checks[2], checks[3]];
    FourHave(checks[0], checks[1], checks[2], checks[3], loc, field, e);
  }

  lemma {:induction false} AnyPartsSay(spec: Spec, k: Kind, v: Value, loc: Location, field: string, e: Error)
    requires Founded(spec) && k.AnyType? && v.Obj?
    ensures e in AnyObjectErrors(spec, k, v, loc, field) <==>
              && e.location == loc
              && (|| RequiredBlames(k.required, v, field, e.field, e.code)
                  || PropertiesBlame(spec, k.properties, v, field, e.field, e.code))
    decreases v, 0, 0, |k.properties| + 1
  {
    JoinHas(RequiredErrors(k.required, v.fields, loc, field), PropertyErrors(spec, k.properties, v, loc, field), e);
    RequiredSays(k.required, v, loc, field, e);
    PropertiesSay(spec, k.properties, v, loc, field, e);
  }

  lemma {:induction false} AnySays(spec: Spec, schema: Schema, v: Value, loc: Location, field: string, e: Error)
    requires Founded(spec) && schema.kind.AnyType?
    ensures e in AnyErrors(spec, schema, v, loc, field) <==>
              e.location == loc && AnyBlames(spec, schema, v, field, e.field, e.code)
    decreases v, Order(spec, schema), 1, 0
  {
    var k := schema.kind;
    if k.typ.Some? {
      TypeIs(k.typ.value, v);
    }
    if !(k.typ.Some? && !TypeFits(k.typ.value, v)) {
      AnyChecksSay(spec, schema, v, loc, field, e);
      JoinHas(Failing(AnyChecks(spec, schema, v), loc, field), AnyObjectErrors(spec, k, v, loc, field), e);
      if v.Obj? {
        AnyPartsSay(spec, k, v, loc, field, e);
      }
    }
  }

  // ---- the order of the errors ----

  /** Missing properties come first, then those that are declared, then the others. */
  lemma ObjectErrorsInOrder(spec: Spec, schema: Schema, v: Value, loc: Location, field: string) returns (p: nat, q: nat)
    requires Founded(spec) && schema.kind.ObjectType? && v.Obj?
    ensures var errors := Validate(spec, schema, v, loc, field); var k := schema.kind;
            && p <= q <= |errors|
            && (forall e | e in errors[..p] :: RequiredBlames(k.required, v, field, e.field, e.code))
            && (forall e | e in errors[p..q] :: PropertiesBlame(spec, k.properties, v, field, e.field, e.code))
            && (forall e | e in errors[q..] :: ExtraBlames(spec, k, v, field, e.field, e.code))
  {
    var k, keys := schema.kind, Sorted(v.fields.Keys);
    var a := RequiredErrors(k.required, v.fields, loc, field);
    var b := PropertyErrors(spec, k.properties, v, loc, field);
    var c := AdditionalErrors(spec, k.properties, k.additional, keys, v, loc, field);
    p, q := |a|, |a| + |b|;
    ThreeParts(a, b, c);
    forall e | e in a
      ensures RequiredBlames(k.required, v, field, e.field, e.code)
    {
      RequiredSays(k.required, v, loc, field, e);
    }
    forall e | e in b
      ensures PropertiesBlame(spec, k.properties, v, field, e.field, e.code)
    {
      PropertiesSay(spec, k.properties, v, loc, field, e);
    }
    forall e | e in c
      ensures ExtraBlames(spec, k, v, field, e.field, e.code)
    {
      ExtraSays(spec, k, v, loc, field, e);
    }
  }

  lemma ThreeParts(a: seq<Error>, b: seq<Error>, c: seq<Error>)
    ensures var all := a + b + c; var p := |a|; var q := |a| + |b|;
            all[..p] == a && all[p..q] == b && all[q..] == c
  {
  }

  lemma ExtraSays(spec: Spec, k: Kind, v: Value, loc: Location, field: string, e: Error)
    requires Founded(spec) && k.ObjectType? && v.Obj?
    requires e in AdditionalErrors(spec, k.properties, k.additional, Sorted(v.fields.Keys), v, loc, field)
    ensures ExtraBlames(spec, k, v, field, e.field, e.code)
  {
    var keys := Sorted(v.fields.Keys);
    match k.additional
    case Permitted(_) => ClosedSays(k.properties, keys, loc, field, e);
    case Constrained(extra) => ExtrasSay(spec, k.properties, extra, keys, v, loc, field, e);
    case _ =>
  }

  // ---- references ----

  /** A reference leads to the component that is called what stands behind the prefix, when that is no reference too. */
  lemma ReferenceLeads(spec: Spec, r: SchemaRef, s: Schema)
    ensures ResolveSchema(spec, r) == Some(s) <==>
              || r == Item(s)
              || exists name | name in spec.schemas ::
                   r == Reference("#/components/schemas/" + name) && spec.schemas[name] == Item(s)
  {
    if r.Reference? && "#/components/schemas/" <= r.target {
      var name := r.target[|"#/components/schemas/"|..];
      assert r.target == "#/components/schemas/" + name;
    }
    forall name
      ensures ("#/components/schemas/" + name)[|"#/components/schemas/"|..] == name
    {
    }
  }
}
