/** Which components can have the rank validation terminates by: those that do not apply themselves. */
module Compositions {
  import opened Strings
  import opened Schemas

  /** The components themselves written out, as opposed to those that are only references. */
  function Components(spec: Spec): set<string> {
    set n | n in spec.schemas && spec.schemas[n].Item?
  }

  /** The components a schema applies to the same value, through compositions alone. */
  function Reached(spec: Spec, schema: Schema): set<string> {
    match schema.kind
    case OneOf(branches) => BranchesReached(spec, branches)
    case AnyOf(branches) => BranchesReached(spec, branches)
    case AllOf(branches) => BranchesReached(spec, branches)
    case Not(branch) => RefReached(spec, branch)
    case AnyType(_, _, _, _, excluded, _, _) => if excluded.Some? then RefReached(spec, excluded.value) else {}
    case _ => {}
  }

  function RefReached(spec: Spec, r: SchemaRef): set<string> {
    match r
    case Item(schema) => Reached(spec, schema)
    case Reference(target) =>
      if StartsWith(target, COMPONENT_PREFIX) && target[|COMPONENT_PREFIX|..] in Components(spec)
      then {target[|COMPONENT_PREFIX|..]}
      else {}
  }

  function BranchesReached(spec: Spec, branches: seq<SchemaRef>): set<string> {
    if branches == [] then {} else RefReached(spec, branches[0]) + BranchesReached(spec, branches[1..])
  }

  function ReachedBy(spec: Spec, n: string): set<string> {
    if n in Components(spec) then Reached(spec, spec.schemas[n].schema) else {}
  }

  /** A set of components each of which applies another of the set. */
  ghost predicate Knot(spec: Spec, s: set<string>) {
    s != {} && s <= Components(spec) && forall n | n in s :: ReachedBy(spec, n) * s != {}
  }

  ghost predicate Knotless(spec: Spec) {
    forall s :: !Knot(spec, s)
  }

  // ---- a rank rules out knots ----

  lemma {:induction false} ReachedIsLower(spec: Spec, rank: map<string, nat>, schema: Schema, m: string)
    requires m in Reached(spec, schema) && m in rank
    ensures rank[m] < Level(rank, schema)
    decreases schema, 1
  {
    match schema.kind
    case OneOf(branches) => ReachedInBranches(spec, rank, branches, m);
    case AnyOf(branches) => ReachedInBranches(spec, rank, branches, m);
    case AllOf(branches) => ReachedInBranches(spec, rank, branches, m);
    case Not(branch) => ReachedInRef(spec, rank, branch, m);
    case AnyType(_, _, _, _, excluded, _, _) =>
      if excluded.Some? {
        ReachedInRef(spec, rank, excluded.value, m);
      }
    case _ =>
  }

  lemma {:induction false} ReachedInRef(spec: Spec, rank: map<string, nat>, r: SchemaRef, m: string)
    requires m in RefReached(spec, r) && m in rank
    ensures rank[m] <= RefLevel(rank, r)
    decreases r, 1
  {
    if r.Item? {
      ReachedIsLower(spec, rank, r.schema, m);
    }
  }

  lemma {:induction false} ReachedInBranches(spec: Spec, rank: map<string, nat>, branches: seq<SchemaRef>, m: string)
    requires m in BranchesReached(spec, branches) && m in rank
    ensures rank[m] <= BranchesLevel(rank, branches)
    decreases branches, 1
  {
    if m in RefReached(spec, branches[0]) {
      ReachedInRef(spec, rank, branches[0], m);
    } else {
      ReachedInBranches(spec, rank, branches[1..], m);
    }
  }

  /** Of a set of components, one with the least rank reaches none of the others. */
  lemma RankedIsKnotless(spec: Spec, rank: map<string, nat>, s: set<string>)
    requires Ranks(rank, spec)
    ensures !Knot(spec, s)
  {
    if s != {} && s <= Components(spec) {
      var n := Lowest(rank, s);
      forall m | m in ReachedBy(spec, n)
        ensures m !in s
      {
        if m in s {
          ReachedIsLower(spec, rank, spec.schemas[n].schema, m);
        }
      }
      assert ReachedBy(spec, n) * s == {};
    }
  }

  lemma {:induction false} Lowest(rank: map<string, nat>, s: set<string>) returns (n: string)
    requires s != {} && s <= rank.Keys
    ensures n in s && forall m | m in s :: rank[n] <= rank[m]
  {
    n :| n in s;
    if s != {n} {
      assert s - {n} != {};
      var other := Lowest(rank, s - {n});
      assert forall m | m in s :: m == n || m in s - {n};
      n := if rank[other] < rank[n] then other else n;
    }
  }

  // ---- without knots there is a rank ----

  /** The components ranked so far reach only one another, and none lies below its level. */
  ghost predicate Started(spec: Spec, rank: map<string, nat>) {
    && rank.Keys <= Components(spec)
    && forall n | n in rank :: ReachedBy(spec, n) <= rank.Keys && Level(rank, spec.schemas[n].schema) <= rank[n]
  }

  lemma {:induction false} LevelDepends(spec: Spec, rank: map<string, nat>, more: map<string, nat>, schema: Schema)
    requires Reached(spec, schema) <= rank.Keys <= more.Keys <= Components(spec)
    requires forall n | n in rank :: more[n] == rank[n]
    ensures Level(more, schema) == Level(rank, schema)
    decreases schema, 1
  {
    match schema.kind
    case OneOf(branches) => BranchesDepend(spec, rank, more, branches);
    case AnyOf(branches) => BranchesDepend(spec, rank, more, branches);
    case AllOf(branches) => BranchesDepend(spec, rank, more, branches);
    case Not(branch) => RefDepends(spec, rank, more, branch);
    case AnyType(_, _, _, _, excluded, _, _) =>
      if excluded.Some? {
        RefDepends(spec, rank, more, excluded.value);
      }
    case _ =>
  }

  lemma {:induction false} RefDepends(spec: Spec, rank: map<string, nat>, more: map<string, nat>, r: SchemaRef)
    requires RefReached(spec, r) <= rank.Keys <= more.Keys <= Components(spec)
    requires forall n | n in rank :: more[n] == rank[n]
    ensures RefLevel(more, r) == RefLevel(rank, r)
    decreases r, 1
  {
    if r.Item? {
      LevelDepends(spec, rank, more, r.schema);
    } else {
      assert forall n | n in RefReached(spec, r) :: n in rank;
    }
  }

  lemma {:induction false} BranchesDepend(spec: Spec, rank: map<string, nat>, more: map<string, nat>,
                                          branches: seq<SchemaRef>)
    requires BranchesReached(spec, branches) <= rank.Keys <= more.Keys <= Components(spec)
    requires forall n | n in rank :: more[n] == rank[n]
    ensures BranchesLevel(more, branches) == BranchesLevel(rank, branches)
    decreases branches, 1
  {
    if branches != [] {
      RefDepends(spec, rank, more, branches[0]);
      BranchesDepend(spec, rank, more, branches[1..]);
    }
  }

  /** Ranking one more component, whose compositions are all ranked. */
  lemma RankOneMore(spec: Spec, rank: map<string, nat>, n: string)
    requires Started(spec, rank) && n in Components(spec) && n !in rank && ReachedBy(spec, n) <= rank.Keys
    ensures Started(spec, rank[n := Level(rank, spec.schemas[n].schema)])
  {
    var more := rank[n := Level(rank, spec.schemas[n].schema)];
    forall k | k in more
      ensures ReachedBy(spec, k) <= more.Keys && Level(more, spec.schemas[k].schema) <= more[k]
    {
      LevelDepends(spec, rank, more, spec.schemas[k].schema);
    }
  }

  lemma {:induction false} RankAll(spec: Spec, rank: map<string, nat>) returns (all: map<string, nat>)
    requires Knotless(spec) && Started(spec, rank)
    ensures Started(spec, all) && all.Keys == Components(spec)
    decreases Components(spec) - rank.Keys
  {
    var left := Components(spec) - rank.Keys;
    if left == {} {
      assert forall n | n in Components(spec) :: n in rank || n in left;
      return rank;
    }
    assert !Knot(spec, left);
    var n :| n in left && ReachedBy(spec, n) * left == {};
    ReachedAreComponents(spec, n);
    forall m | m in ReachedBy(spec, n)
      ensures m in rank
    {
      assert m in Components(spec) && (m in left ==> m in ReachedBy(spec, n) * left);
    }
    RankOneMore(spec, rank, n);
    all := RankAll(spec, rank[n := Level(rank, spec.schemas[n].schema)]);
  }

  lemma ReachedAreComponents(spec: Spec, n: string)
    ensures ReachedBy(spec, n) <= Components(spec)
  {
    if n in Components(spec) {
      SchemaReachesComponents(spec, spec.schemas[n].schema);
    }
  }

  lemma {:induction false} SchemaReachesComponents(spec: Spec, schema: Schema)
    ensures Reached(spec, schema) <= Components(spec)
    decreases schema, 1
  {
    match schema.kind
    case OneOf(branches) => BranchesReachComponents(spec, branches);
    case AnyOf(branches) => BranchesReachComponents(spec, branches);
    case AllOf(branches) => BranchesReachComponents(spec, branches);
    case Not(branch) => RefReachesComponents(spec, branch);
    case AnyType(_, _, _, _, excluded, _, _) =>
      if excluded.Some? {
        RefReachesComponents(spec, excluded.value);
      }
    case _ =>
  }

  lemma {:induction false} RefReachesComponents(spec: Spec, r: SchemaRef)
    ensures RefReached(spec, r) <= Components(spec)
    decreases r, 1
  {
    if r.Item? {
      SchemaReachesComponents(spec, r.schema);
    }
  }

  lemma {:induction false} BranchesReachComponents(spec: Spec, branches: seq<SchemaRef>)
    ensures BranchesReached(spec, branches) <= Components(spec)
    decreases branches, 1
  {
    if branches != [] {
      RefReachesComponents(spec, branches[0]);
      BranchesReachComponents(spec, branches[1..]);
    }
  }

  /**
   * The rank validation terminates by exists if and only if no set of components is tied in a knot: none in
   * which each applies another of the set through `allOf`, `anyOf`, `oneOf` and `not` alone.
   */
  lemma FoundedExactly(spec: Spec)
    ensures Founded(spec) <==> Knotless(spec)
  {
    if Founded(spec) {
      var rank :| Ranks(rank, spec);
      forall s
        ensures !Knot(spec, s)
      {
        RankedIsKnotless(spec, rank, s);
      }
    }
    if Knotless(spec) {
      var all := RankAll(spec, map[]);
      assert Ranks(all, spec);
    }
  }
}
