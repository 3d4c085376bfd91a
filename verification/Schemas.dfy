/** The typed schemas the validator works on, and references between them. */
module Schemas {
  import opened Strings
  import opened Json

  datatype SchemaRef = Reference(target: string) | Item(schema: Schema)

  datatype Property = Property(name: string, schema: SchemaRef)

  datatype Discriminator = Discriminator(property: string, mapping: map<string, string>)

  datatype Additional = Unspecified | Permitted(yes: bool) | Constrained(schema: SchemaRef)

  datatype Schema = Schema(nullable: bool, discriminator: Option<Discriminator>, kind: Kind)

  datatype Kind =
    | StringType(texts: seq<Option<string>>, minLength: Option<nat>, maxLength: Option<nat>,
                 pattern: Option<string>, format: Option<string>)
    | IntegerType(int32: bool, ints: seq<Option<int>>, intMin: Option<int>, intMax: Option<int>,
                  aboveMin: bool, belowMax: bool, intMultiple: Option<int>)
    | NumberType(reals: seq<Option<real>>, realMin: Option<real>, realMax: Option<real>,
                 overMin: bool, underMax: bool, realMultiple: Option<real>)
    | BooleanType(bools: seq<Option<bool>>)
    | ObjectType(required: seq<string>, properties: seq<Property>, additional: Additional)
    | ArrayType(items: Option<SchemaRef>, minItems: Option<nat>, maxItems: Option<nat>, unique: bool)
    | OneOf(branches: seq<SchemaRef>)
    | AnyOf(branches: seq<SchemaRef>)
    | AllOf(branches: seq<SchemaRef>)
    | Not(branch: SchemaRef)
    | AnyType(typ: Option<string>, values: seq<Value>, anyPattern: Option<string>, anyFormat: Option<string>,
              excluded: Option<SchemaRef>, required: seq<string>, properties: seq<Property>)

  /** The component schemas, with the pattern and format checks left as parameters. */
  datatype Spec = Spec(schemas: map<string, SchemaRef>,
                       matchesPattern: (string, string) -> bool,
                       matchesFormat: (string, string) -> bool)

  const COMPONENT_PREFIX: string := "#/components/schemas/"

  /** `resolve_schema`: one hop, so a component that is itself a reference does not resolve. */
  function ResolveSchema(spec: Spec, r: SchemaRef): (s: Option<Schema>)
    ensures s.Some? && r.Item? ==> s.value == r.schema
  {
    match r
    case Item(schema) => Some(schema)
    case Reference(target) =>
      if StartsWith(target, COMPONENT_PREFIX) && target[|COMPONENT_PREFIX|..] in spec.schemas
         && spec.schemas[target[|COMPONENT_PREFIX|..]].Item?
      then Some(spec.schemas[target[|COMPONENT_PREFIX|..]].schema)
      else None
  }

  // ---- compositions that come back to themselves without descending into the value ----

  function Max(a: nat, b: nat): nat {
    if a < b then b else a
  }

  /** How many compositions lie on top of one another, a reference counting as its component's rank. */
  function Level(rank: map<string, nat>, schema: Schema): nat {
    match schema.kind
    case OneOf(branches) => 1 + BranchesLevel(rank, branches)
    case AnyOf(branches) => 1 + BranchesLevel(rank, branches)
    case AllOf(branches) => 1 + BranchesLevel(rank, branches)
    case Not(branch) => 1 + RefLevel(rank, branch)
    case AnyType(_, _, _, _, excluded, _, _) => if excluded.Some? then 1 + RefLevel(rank, excluded.value) else 0
    case _ => 0
  }

  function RefLevel(rank: map<string, nat>, r: SchemaRef): nat {
    match r
    case Item(schema) => Level(rank, schema)
    case Reference(target) =>
      if StartsWith(target, COMPONENT_PREFIX) && target[|COMPONENT_PREFIX|..] in rank
      then rank[target[|COMPONENT_PREFIX|..]]
      else 0
  }

  function BranchesLevel(rank: map<string, nat>, branches: seq<SchemaRef>): nat {
    if branches == [] then 0 else Max(RefLevel(rank, branches[0]), BranchesLevel(rank, branches[1..]))
  }

  lemma OneBranchLevel(rank: map<string, nat>, r: SchemaRef)
    ensures BranchesLevel(rank, [r]) == RefLevel(rank, r)
  {
    assert [r][1..] == [];
  }

  ghost predicate Ranks(rank: map<string, nat>, spec: Spec) {
    forall n | n in spec.schemas && spec.schemas[n].Item? :: n in rank && Level(rank, spec.schemas[n].schema) <= rank[n]
  }

  /** No component reaches itself through `allOf`, `anyOf`, `oneOf` and `not` alone. */
  ghost predicate Founded(spec: Spec) {
    exists rank :: Ranks(rank, spec)
  }

  ghost function RankOf(spec: Spec): (rank: map<string, nat>)
    requires Founded(spec)
    ensures Ranks(rank, spec)
  {
    var rank :| Ranks(rank, spec);
    rank
  }

  ghost function Order(spec: Spec, schema: Schema): nat
    requires Founded(spec)
  {
    Level(RankOf(spec), schema)
  }

  lemma ResolvedLevel(spec: Spec, r: SchemaRef)
    requires Founded(spec) && ResolveSchema(spec, r).Some?
    ensures Order(spec, ResolveSchema(spec, r).value) <= RefLevel(RankOf(spec), r)
  {
  }

  lemma {:induction false} OneOfTheBranches(rank: map<string, nat>, branches: seq<SchemaRef>, i: nat)
    requires i < |branches|
    ensures RefLevel(rank, branches[i]) <= BranchesLevel(rank, branches)
  {
    if 0 < i {
      assert branches[1..][i - 1] == branches[i];
      OneOfTheBranches(rank, branches[1..], i - 1);
    }
  }

  lemma BranchLevel(spec: Spec, branches: seq<SchemaRef>, i: nat)
    requires Founded(spec) && i < |branches|
    ensures RefLevel(RankOf(spec), branches[i]) <= BranchesLevel(RankOf(spec), branches)
    ensures ResolveSchema(spec, branches[i]).Some? ==>
              Order(spec, ResolveSchema(spec, branches[i]).value) <= BranchesLevel(RankOf(spec), branches)
  {
    OneOfTheBranches(RankOf(spec), branches, i);
    if ResolveSchema(spec, branches[i]).Some? {
      ResolvedLevel(spec, branches[i]);
    }
  }

  /** The schemas a composition applies to the same value. */
  function Applied(schema: Schema): seq<SchemaRef> {
    match schema.kind
    case OneOf(branches) => branches
    case AnyOf(branches) => branches
    case AllOf(branches) => branches
    case Not(branch) => [branch]
    case AnyType(_, _, _, _, excluded, _, _) => if excluded.Some? then [excluded.value] else []
    case _ => []
  }

  /** A descent from schema to schema, each one applied by the one before. */
  predicate Descends(spec: Spec, chain: seq<Schema>) {
    forall i | 0 <= i < |chain| - 1 ::
      exists j | 0 <= j < |Applied(chain[i])| :: ResolveSchema(spec, Applied(chain[i])[j]) == Some(chain[i + 1])
  }

  lemma AppliedIsLower(spec: Spec, schema: Schema, j: nat)
    requires Founded(spec) && j < |Applied(schema)|
    ensures ResolveSchema(spec, Applied(schema)[j]).Some? ==>
              Order(spec, ResolveSchema(spec, Applied(schema)[j]).value) < Order(spec, schema)
  {
    if schema.kind.OneOf? || schema.kind.AnyOf? || schema.kind.AllOf? {
      BranchLevel(spec, schema.kind.branches, j);
    } else if ResolveSchema(spec, Applied(schema)[j]).Some? {
      ResolvedLevel(spec, Applied(schema)[j]);
    }
  }

  /** In a founded specification every such descent is short, so none of them comes back. */
  lemma {:induction false} DescentIsShort(spec: Spec, chain: seq<Schema>)
    requires Founded(spec) && chain != [] && Descends(spec, chain)
    ensures |chain| <= Order(spec, chain[0]) + 1
    ensures forall i | 0 < i < |chain| :: chain[i] != chain[0]
  {
    DescentFalls(spec, chain, |chain| - 1);
    forall i | 0 < i < |chain|
      ensures chain[i] != chain[0]
    {
      DescentFalls(spec, chain, i);
    }
  }

  lemma {:induction false} DescentFalls(spec: Spec, chain: seq<Schema>, i: nat)
    requires Founded(spec) && i < |chain| && Descends(spec, chain)
    ensures Order(spec, chain[i]) + i <= Order(spec, chain[0])
  {
    if 0 < i {
      DescentFalls(spec, chain, i - 1);
      var j :| 0 <= j < |Applied(chain[i - 1])| &&
               ResolveSchema(spec, Applied(chain[i - 1])[j]) == Some(chain[i - 1 + 1]);
      AppliedIsLower(spec, chain[i - 1], j);
    }
  }
}
