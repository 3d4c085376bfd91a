/** `validate_value`: which errors a value collects against a schema, and in which order. */
module Validator {
  import opened Strings
  import opened Json
  import opened Keys
  import opened Schemas

  datatype Location = Path | Query | Header | Body

  /** The stable codes of the failures, each named after the keyword it stands for. */
  datatype Code =
    | TypeCode | EnumCode | MinLengthCode | MaxLengthCode | PatternCode | FormatCode
    | MinimumCode | ExclusiveMinimumCode | MaximumCode | ExclusiveMaximumCode | MultipleOfCode
    | RequiredCode | AdditionalPropertiesCode | MinItemsCode | MaxItemsCode | UniqueItemsCode
    | OneOfCode | AnyOfCode | NotCode

  /** One entry of the error list; its human-readable message is not modelled. */
  datatype Error = Error(location: Location, field: string, code: Code)

  function Complain(wrong: bool, loc: Location, field: string, code: Code): seq<Error> {
    if wrong then [Error(loc, field, code)] else []
  }

  datatype Check = Check(wrong: bool, code: Code)

  /** One error for each failing check, in order. */
  function Failing(checks: seq<Check>, loc: Location, field: string): seq<Error> {
    if checks == [] then []
    else Complain(checks[0].wrong, loc, field, checks[0].code) + Failing(checks[1..], loc, field)
  }

  // ---- leaves ----

  const I64_MIN: int := -0x8000_0000_0000_0000
  const I64_MAX: int := 0x7FFF_FFFF_FFFF_FFFF
  const I32_MIN: int := -0x8000_0000
  const I32_MAX: int := 0x7FFF_FFFF

  predicate IsI64(v: Value) {
    v.Num? && v.n.Whole? && I64_MIN <= v.n.i <= I64_MAX
  }

  function Abs(r: real): real {
    if r < 0.0 then -r else r
  }

  const EPSILON: real := 1.0 / 4503599627370496.0

  predicate FloatEq(a: real, b: real) {
    var scale := if Abs(a) < Abs(b) then Abs(b) else Abs(a);
    Abs(a - b) <= EPSILON * (if scale < 1.0 then 1.0 else scale) * 64.0
  }

  /** The fraction left by truncating division, as `%` leaves it. */
  function Remainder(q: real): real {
    if q >= 0.0 then q - q.Floor as real else q + (-q).Floor as real
  }

  predicate NearMultiple(r: real, m: real)
    requires m != 0.0
  {
    Abs(Remainder(r / m)) < EPSILON || Abs(1.0 - Abs(Remainder(r / m))) < EPSILON
  }

  function StringErrors(spec: Spec, k: Kind, v: Value, loc: Location, field: string): seq<Error>
    requires k.StringType?
  {
    if !v.Str? then [Error(loc, field, TypeCode)]
    else if k.texts != [] && Some(v.s) !in k.texts then [Error(loc, field, EnumCode)]
    else
      Failing([Check(k.minLength.Some? && |v.s| < k.minLength.value, MinLengthCode),
               Check(k.maxLength.Some? && |v.s| > k.maxLength.value, MaxLengthCode),
               Check(k.pattern.Some? && !spec.matchesPattern(k.pattern.value, v.s), PatternCode),
               Check(k.format.Some? && !spec.matchesFormat(k.format.value, v.s), FormatCode)], loc, field)
  }

  function IntegerChecks(k: Kind, n: int): seq<Check>
    requires k.IntegerType?
  {
    [Check(k.intMin.Some? && !(if k.aboveMin then n > k.intMin.value else n >= k.intMin.value),
           if k.aboveMin then ExclusiveMinimumCode else MinimumCode),
     Check(k.intMax.Some? && !(if k.belowMax then n < k.intMax.value else n <= k.intMax.value),
           if k.belowMax then ExclusiveMaximumCode else MaximumCode),
     Check(k.intMultiple.Some? && k.intMultiple.value != 0 && n % k.intMultiple.value != 0, MultipleOfCode)]
  }

  function IntegerErrors(k: Kind, v: Value, loc: Location, field: string): seq<Error>
    requires k.IntegerType?
  {
    if !IsI64(v) then [Error(loc, field, TypeCode)]
    else if k.int32 && !(I32_MIN <= v.n.i <= I32_MAX) then [Error(loc, field, FormatCode)]
    else if k.ints != [] && Some(v.n.i) !in k.ints then [Error(loc, field, EnumCode)]
    else Failing(IntegerChecks(k, v.n.i), loc, field)
  }

  predicate RealListed(options: seq<Option<real>>, r: real) {
    exists i | 0 <= i < |options| :: options[i].Some? && FloatEq(options[i].value, r)
  }

  function NumberErrors(k: Kind, v: Value, loc: Location, field: string): seq<Error>
    requires k.NumberType?
  {
    if !v.Num? then [Error(loc, field, TypeCode)]
    else
      var r := AsReal(v.n);
      if k.reals != [] && !RealListed(k.reals, r) then [Error(loc, field, EnumCode)]
      else
        Failing([Check(k.realMin.Some? && !(if k.overMin then r > k.realMin.value else r >= k.realMin.value),
                       if k.overMin then ExclusiveMinimumCode else MinimumCode),
                 Check(k.realMax.Some? && !(if k.underMax then r < k.realMax.value else r <= k.realMax.value),
                       if k.underMax then ExclusiveMaximumCode else MaximumCode),
                 Check(k.realMultiple.Some? && k.realMultiple.value != 0.0 && !NearMultiple(r, k.realMultiple.value),
                       MultipleOfCode)], loc, field)
  }

  function BooleanErrors(k: Kind, v: Value, loc: Location, field: string): seq<Error>
    requires k.BooleanType?
  {
    if !v.Bool? then [Error(loc, field, TypeCode)]
    else Complain(k.bools != [] && Some(v.b) !in k.bools, loc, field, EnumCode)
  }

  // ---- field names ----

  function Child(field: string, key: string): string {
    field + "." + key
  }

  function Indexed(field: string, i: nat): string {
    field + "[" + Decimal(i) + "]"
  }

  /** `rsplit('.').next()`. */
  function LastSegment(field: string): string {
    if '.' in field then LastSegment(field[1..]) else field
  }

  // ---- objects and arrays ----

  predicate Declares(properties: seq<Property>, key: string) {
    exists i | 0 <= i < |properties| :: properties[i].name == key
  }

  function RequiredErrors(required: seq<string>, fields: map<string, Value>, loc: Location, field: string): seq<Error> {
    if required == [] then []
    else
      Complain(required[0] !in fields, loc, Child(field, required[0]), RequiredCode)
      + RequiredErrors(required[1..], fields, loc, field)
  }

  /** The undeclared keys, in visiting order, each an error of its own. */
  ghost function ClosedErrors(properties: seq<Property>, keys: seq<string>, loc: Location, field: string): seq<Error> {
    if keys == [] then []
    else
      Complain(!Declares(properties, keys[0]), loc, Child(field, keys[0]), AdditionalPropertiesCode)
      + ClosedErrors(properties, keys[1..], loc, field)
  }

  predicate HasDuplicates(items: seq<Value>) {
    exists i, j | 0 <= i < j < |items| :: items[i] == items[j]
  }

  // ---- compositions ----

  function Lower(c: char): char {
    if 'A' <= c <= 'Z' then (c as int + 32) as char else c
  }

  predicate EqIgnoreCase(a: string, b: string) {
    |a| == |b| && forall i | 0 <= i < |a| :: Lower(a[i]) == Lower(b[i])
  }

  /** The first branch that is a reference with the mapped target, or whose component name is the key. */
  function FindBranch(spec: Spec, branches: seq<SchemaRef>, mapped: Option<string>, key: string): (r: Option<Schema>)
    ensures r.Some? ==> exists i | 0 <= i < |branches| :: ResolveSchema(spec, branches[i]) == r
  {
    if branches == [] then None
    else
      var b := branches[0];
      if b.Reference?
         && (|| mapped == Some(b.target)
             || (StartsWith(b.target, COMPONENT_PREFIX) && EqIgnoreCase(b.target[|COMPONENT_PREFIX|..], key)))
      then ResolveSchema(spec, b)
      else
        var rest := FindBranch(spec, branches[1..], mapped, key);
        assert forall i | 0 <= i < |branches[1..]| :: branches[1..][i] == branches[i + 1];
        rest
  }

  function Discriminated(spec: Spec, schema: Schema, v: Value): Option<Schema>
    requires schema.kind.OneOf?
  {
    match schema.discriminator
    case None => None
    case Some(d) =>
      if v.HasStr(d.property) then
        var key := v.fields[d.property].s;
        FindBranch(spec, schema.kind.branches, if key in d.mapping then Some(d.mapping[key]) else None, key)
      else None
  }

  lemma DiscriminatedIsLower(spec: Spec, schema: Schema, v: Value)
    requires Founded(spec) && schema.kind.OneOf? && Discriminated(spec, schema, v).Some?
    ensures Order(spec, Discriminated(spec, schema, v).value) < Order(spec, schema)
  {
    var i :| 0 <= i < |schema.kind.branches|
        && ResolveSchema(spec, schema.kind.branches[i]) == Discriminated(spec, schema, v);
    AppliedIsLower(spec, schema, i);
  }

  function PropertyNames(properties: seq<Property>): set<string> {
    set i | 0 <= i < |properties| :: properties[i].name
  }

  /** `collect_allof_declared_properties`. */
  function Declared(spec: Spec, branches: seq<SchemaRef>): set<string> {
    if branches == [] then {}
    else
      var sub := ResolveSchema(spec, branches[0]);
      (if sub.Some? && (sub.value.kind.ObjectType? || sub.value.kind.AnyType?)
       then PropertyNames(sub.value.kind.properties) else {})
      + Declared(spec, branches[1..])
  }

  predicate Forgiven(e: Error, names: set<string>) {
    e.code == AdditionalPropertiesCode && LastSegment(e.field) in names
  }

  function Unforgiven(errors: seq<Error>, names: set<string>): seq<Error> {
    if errors == [] then []
    else if Forgiven(errors[0], names) then Unforgiven(errors[1..], names)
    else [errors[0]] + Unforgiven(errors[1..], names)
  }

  /** Only object-shaped branches are read with their siblings' properties in mind. */
  predicate Lenient(schema: Schema) {
    schema.kind.ObjectType? || schema.kind.AnyType?
  }

  // ---- the errors of a value, as a function ----

  ghost function Validate(spec: Spec, schema: Schema, v: Value, loc: Location, field: string): seq<Error>
    requires Founded(spec)
    decreases v, Order(spec, schema), 2, 0
  {
    if v.Null? && schema.nullable then []
    else
      match schema.kind
      case StringType(_, _, _, _, _) => StringErrors(spec, schema.kind, v, loc, field)
      case IntegerType(_, _, _, _, _, _, _) => IntegerErrors(schema.kind, v, loc, field)
      case NumberType(_, _, _, _, _, _) => NumberErrors(schema.kind, v, loc, field)
      case BooleanType(_) => BooleanErrors(schema.kind, v, loc, field)
      case ObjectType(_, _, _) => ObjectErrors(spec, schema.kind, v, loc, field)
      case ArrayType(_, _, _, _) => ArrayErrors(spec, schema.kind, v, loc, field)
      case OneOf(branches) =>
        if Discriminated(spec, schema, v).Some? then
          DiscriminatedIsLower(spec, schema, v);
          Validate(spec, Discriminated(spec, schema, v).value, v, loc, field)
        else
          Complain(Matches(spec, branches, v) != 1, loc, field, OneOfCode)
      case AnyOf(branches) => Complain(Matches(spec, branches, v) == 0, loc, field, AnyOfCode)
      case AllOf(branches) => BranchErrors(spec, branches, Declared(spec, branches), v, loc, field)
      case Not(branch) =>
        OneBranchLevel(RankOf(spec), branch);
        Complain(Matches(spec, [branch], v) == 1, loc, field, NotCode)
      case AnyType(_, _, _, _, _, _, _) => AnyErrors(spec, schema, v, loc, field)
  }

  ghost function ObjectErrors(spec: Spec, k: Kind, v: Value, loc: Location, field: string): seq<Error>
    requires Founded(spec) && k.ObjectType?
    decreases v, 0, 1, 0
  {
    if !v.Obj? then [Error(loc, field, TypeCode)]
    else
      RequiredErrors(k.required, v.fields, loc, field)
      + PropertyErrors(spec, k.properties, v, loc, field)
      + AdditionalErrors(spec, k.properties, k.additional, Sorted(v.fields.Keys), v, loc, field)
  }

  ghost function ArrayErrors(spec: Spec, k: Kind, v: Value, loc: Location, field: string): seq<Error>
    requires Founded(spec) && k.ArrayType?
    decreases v, 0, 1, 0
  {
    if !v.Arr? then [Error(loc, field, TypeCode)]
    else
      Failing([Check(k.minItems.Some? && |v.items| < k.minItems.value, MinItemsCode),
               Check(k.maxItems.Some? && |v.items| > k.maxItems.value, MaxItemsCode)], loc, field)
      + EachItemErrors(spec, k.items, v, loc, field)
      + Complain(k.unique && HasDuplicates(v.items), loc, field, UniqueItemsCode)
  }

  ghost function PropertyErrors(spec: Spec, properties: seq<Property>, v: Value, loc: Location,
                                field: string): seq<Error>
    requires Founded(spec) && v.Obj?
    decreases v, 0, 0, |properties|
  {
    if properties == [] then []
    else
      var p := properties[0];
      (if p.name in v.fields && ResolveSchema(spec, p.schema).Some?
       then Validate(spec, ResolveSchema(spec, p.schema).value, v.fields[p.name], loc, Child(field, p.name)) else [])
      + PropertyErrors(spec, properties[1..], v, loc, field)
  }

  ghost function AdditionalErrors(spec: Spec, properties: seq<Property>, additional: Additional, keys: seq<string>,
                                  v: Value, loc: Location, field: string): seq<Error>
    requires Founded(spec) && v.Obj? && forall k | k in keys :: k in v.fields
    decreases v, 0, 0, |keys|
  {
    match additional
    case Unspecified => []
    case Permitted(yes) => if yes then [] else ClosedErrors(properties, keys, loc, field)
    case Constrained(extra) =>
      if keys == [] || ResolveSchema(spec, extra).None? then []
      else
        (if Declares(properties, keys[0]) then []
         else Validate(spec, ResolveSchema(spec, extra).value, v.fields[keys[0]], loc, Child(field, keys[0])))
        + AdditionalErrors(spec, properties, additional, keys[1..], v, loc, field)
  }

  ghost function EachItemErrors(spec: Spec, items: Option<SchemaRef>, v: Value, loc: Location,
                                field: string): seq<Error>
    requires Founded(spec) && v.Arr?
    decreases v, 0, 0, |v.items| + 1
  {
    if items.Some? && ResolveSchema(spec, items.value).Some?
    then ItemErrors(spec, ResolveSchema(spec, items.value).value, v, 0, loc, field)
    else []
  }

  ghost function ItemErrors(spec: Spec, item: Schema, v: Value, i: nat, loc: Location, field: string): seq<Error>
    requires Founded(spec) && v.Arr? && i <= |v.items|
    decreases v, 0, 0, |v.items| - i
  {
    if i == |v.items| then []
    else Validate(spec, item, v.items[i], loc, Indexed(field, i)) + ItemErrors(spec, item, v, i + 1, loc, field)
  }

  /** How many of the branches that resolve accept the value, each probed silently. */
  ghost function Matches(spec: Spec, branches: seq<SchemaRef>, v: Value): nat
    requires Founded(spec)
    decreases v, BranchesLevel(RankOf(spec), branches), 3, |branches|
  {
    if branches == [] then 0
    else
      BranchLevel(spec, branches, 0);
      var sub := ResolveSchema(spec, branches[0]);
      (if sub.Some? && Validate(spec, sub.value, v, Body, "_") == [] then 1 else 0) + Matches(spec, branches[1..], v)
  }

  ghost function BranchErrors(spec: Spec, branches: seq<SchemaRef>, union: set<string>, v: Value,
                              loc: Location, field: string): seq<Error>
    requires Founded(spec)
    decreases v, BranchesLevel(RankOf(spec), branches), 3, |branches|
  {
    if branches == [] then []
    else
      BranchLevel(spec, branches, 0);
      var sub := ResolveSchema(spec, branches[0]);
      (if sub.None? then [] else FilteredErrors(spec, sub.value, union, v, loc, field))
      + BranchErrors(spec, branches[1..], union, v, loc, field)
  }

  ghost function FilteredErrors(spec: Spec, schema: Schema, union: set<string>, v: Value, loc: Location, field: string)
    : seq<Error>
    requires Founded(spec)
    decreases v, Order(spec, schema), 2, 1
  {
    if Lenient(schema) then Unforgiven(Validate(spec, schema, v, loc, field), union)
    else Validate(spec, schema, v, loc, field)
  }

  predicate TypeFits(typ: string, v: Value) {
    match typ
    case "string" => v.Str?
    case "integer" => IsI64(v)
    case "number" => v.Num?
    case "boolean" => v.Bool?
    case "object" => v.Obj?
    case "array" => v.Arr?
    case _ => true
  }

  ghost function AnyChecks(spec: Spec, schema: Schema, v: Value): seq<Check>
    requires Founded(spec) && schema.kind.AnyType?
    decreases v, Order(spec, schema), 0, 1
  {
    var k := schema.kind;
    assert k.excluded.Some? ==> BranchesLevel(RankOf(spec), [k.excluded.value]) < Order(spec, schema) by {
      if k.excluded.Some? {
        OneBranchLevel(RankOf(spec), k.excluded.value);
      }
    }
    [Check(k.values != [] && v !in k.values, EnumCode),
     Check(v.Str? && k.anyPattern.Some? && !spec.matchesPattern(k.anyPattern.value, v.s), PatternCode),
     Check(v.Str? && k.anyFormat.Some? && !spec.matchesFormat(k.anyFormat.value, v.s), FormatCode),
     Check(k.excluded.Some? && Matches(spec, [k.excluded.value], v) == 1, NotCode)]
  }

  /** `validate_any_schema`: a failed enumeration does not end the checks here. */
  ghost function AnyErrors(spec: Spec, schema: Schema, v: Value, loc: Location, field: string): seq<Error>
    requires Founded(spec) && schema.kind.AnyType?
    decreases v, Order(spec, schema), 1, 0
  {
    var k := schema.kind;
    if k.typ.Some? && !TypeFits(k.typ.value, v) then [Error(loc, field, TypeCode)]
    else Failing(AnyChecks(spec, schema, v), loc, field) + AnyObjectErrors(spec, k, v, loc, field)
  }

  ghost function AnyObjectErrors(spec: Spec, k: Kind, v: Value, loc: Location, field: string): seq<Error>
    requires Founded(spec) && k.AnyType?
    decreases v, 0, 0, |k.properties| + 1
  {
    if v.Obj? then RequiredErrors(k.required, v.fields, loc, field) + PropertyErrors(spec, k.properties, v, loc, field)
    else []
  }
}
