/** The passes that turn an OpenAPI 3.1 document into the 3.0 forms the loader's parser understands. */
module Normaliser {
  import opened Strings
  import opened Json

  datatype Pass = Nullables | ExclusiveBounds | BooleanItems

  /** `extract_nullable_pair_yaml`. */
  function NullablePair(items: seq<Value>): Option<string> {
    if |items| == 2 && items[0].Str? && items[1].Str? then
      if items[0].s == "null" && items[1].s != "null" then Some(items[1].s)
      else if items[1].s == "null" && items[0].s != "null" then Some(items[0].s)
      else None
    else None
  }

  function PairOf(m: map<string, Value>): Option<string> {
    if "type" in m && m["type"].Arr? then NullablePair(m["type"].items) else None
  }

  /** A numeric exclusive bound that stands without the numeric bound it belongs to. */
  predicate LoneBound(m: map<string, Value>, exclusive: string, bound: string) {
    exclusive in m && m[exclusive].Num? && !(bound in m && m[bound].Num?)
  }

  function WithBound(m: map<string, Value>, exclusive: string, bound: string): map<string, Value> {
    if LoneBound(m, exclusive, bound)
    then m[bound := m[exclusive]][exclusive := Bool(true)]
    else m
  }

  function WithNullable(m: map<string, Value>): map<string, Value> {
    var t := PairOf(m);
    if t.None? then m
    else
      var typed := m["type" := Str(t.value)];
      if "nullable" in typed then typed else typed["nullable" := Bool(true)]
  }

  function WithoutBooleanItems(m: map<string, Value>): map<string, Value> {
    if "prefixItems" in m && "items" in m && m["items"].Bool? then m - {"items"} else m
  }

  /** What a pass does to the entries of one mapping, before it goes on to their values. */
  function Local(p: Pass, m: map<string, Value>): map<string, Value> {
    match p
    case Nullables => WithNullable(m)
    case ExclusiveBounds => WithBound(WithBound(m, "exclusiveMinimum", "minimum"), "exclusiveMaximum", "maximum")
    case BooleanItems => WithoutBooleanItems(m)
  }

  /** A value a pass inserts or keeps: one that was there, or a scalar. */
  lemma LocalValues(p: Pass, m: map<string, Value>)
    ensures forall k | k in Local(p, m) ::
              (k in m && Local(p, m)[k] == m[k]) || (!Local(p, m)[k].Arr? && !Local(p, m)[k].Obj?)
  {
  }

  function Run(p: Pass, v: Value): Value {
    match v
    case Arr(items) => Arr(seq(|items|, i requires 0 <= i < |items| => Run(p, items[i])))
    case Obj(fields) =>
      LocalValues(p, fields);
      Obj(map k | k in Local(p, fields) ::
            if k in fields && Local(p, fields)[k] == fields[k] then Run(p, fields[k]) else Local(p, fields)[k])
    case _ => v
  }

  /** The passes that only write differently what a document says; dropping boolean `items` is another matter. */
  function Normalise(v: Value): Value {
    Run(ExclusiveBounds, Run(Nullables, v))
  }

  // ---- as the source runs them ----

  method RewriteBoundPair(m: map<string, Value>, exclusive: string, bound: string) returns (r: map<string, Value>)
    ensures r == WithBound(m, exclusive, bound)
  {
    r := m;
    if exclusive !in m {
      return;
    }
    var current := m[exclusive];
    if current.Bool? {
      return;
    }
    if !current.Num? {
      return;
    }
    if bound in m && m[bound].Num? {
      return;
    }
    r := r[bound := current];
    r := r[exclusive := Bool(true)];
  }

  method RewriteEntries(p: Pass, m: map<string, Value>) returns (r: map<string, Value>)
    ensures r == Local(p, m)
  {
    r := m;
    match p {
      case Nullables =>
        var t := PairOf(m);
        if t.Some? {
          r := r["type" := Str(t.value)];
          if "nullable" !in r {
            r := r["nullable" := Bool(true)];
          }
        }
      case ExclusiveBounds =>
        r := RewriteBoundPair(r, "exclusiveMinimum", "minimum");
        r := RewriteBoundPair(r, "exclusiveMaximum", "maximum");
      case BooleanItems =>
        if "prefixItems" in r && "items" in r && r["items"].Bool? {
          r := r - {"items"};
        }
    }
  }

  method Rewrite(p: Pass, v: Value) returns (r: Value)
    ensures r == Run(p, v)
    decreases v
  {
    match v {
      case Obj(fields) =>
        LocalValues(p, fields);
        var m := RewriteEntries(p, fields);
        var done: map<string, Value> := map[];
        var todo := m.Keys;
        while todo != {}
          invariant todo <= m.Keys && done.Keys == m.Keys - todo
          invariant forall k | k in done :: done[k] == Run(p, v).fields[k]
          decreases todo
        {
          var k :| k in todo;
          if m[k].Arr? || m[k].Obj? {
            assert m[k] == fields[k];
            assert m[k] < v;
            var child := Rewrite(p, m[k]);
            done := done[k := child];
          } else {
            done := done[k := m[k]];
          }
          todo := todo - {k};
        }
        r := Obj(done);
        assert done == Run(p, v).fields;
      case Arr(items) =>
        var out: seq<Value> := [];
        for i := 0 to |items|
          invariant |out| == i && forall j | 0 <= j < i :: out[j] == Run(p, items[j])
        {
          var child := Rewrite(p, items[i]);
          out := out + [child];
        }
        r := Arr(out);
      case _ => r := v;
    }
  }

  // ---- algebra of the passes ----

  function RunFields(p: Pass, m: map<string, Value>): map<string, Value> {
    map k | k in m :: Run(p, m[k])
  }

  lemma RunObject(p: Pass, m: map<string, Value>)
    ensures Run(p, Obj(m)) == Obj(RunFields(p, Local(p, m)))
  {
    LocalValues(p, m);
    var v := Obj(m);
    assert Run(p, v).fields == RunFields(p, Local(p, m));
  }

  /** A pass keeps the shape of a value, so what a mapping does next does not depend on its values being rewritten. */
  lemma RunKeepsShape(p: Pass, v: Value)
    ensures !v.Arr? && !v.Obj? ==> Run(p, v) == v
    ensures Run(p, v).Arr? == v.Arr? && Run(p, v).Obj? == v.Obj? && Run(p, v).Bool? == v.Bool?
    ensures Run(p, v).Num? == v.Num? && Run(p, v).Str? == v.Str?
    ensures v.Arr? ==> NullablePair(Run(p, v).items) == NullablePair(v.items)
  {
  }

  lemma LocalCommutesWithChildren(p: Pass, q: Pass, m: map<string, Value>)
    ensures Local(p, RunFields(q, m)) == RunFields(q, Local(p, m))
  {
    match p
    case Nullables => NullablesGoWithChildren(q, m);
    case ExclusiveBounds =>
      BoundCommutes(q, m, "exclusiveMinimum", "minimum");
      BoundCommutes(q, WithBound(m, "exclusiveMinimum", "minimum"), "exclusiveMaximum", "maximum");
    case BooleanItems =>
      if "items" in m {
        RunKeepsShape(q, m["items"]);
      }
      assert WithoutBooleanItems(RunFields(q, m)) == RunFields(q, WithoutBooleanItems(m));
  }

  lemma NullablesGoWithChildren(q: Pass, m: map<string, Value>)
    ensures WithNullable(RunFields(q, m)) == RunFields(q, WithNullable(m))
  {
    RunKeepsShape(q, Bool(true));
    if "type" in m {
      RunKeepsShape(q, m["type"]);
    }
    assert PairOf(RunFields(q, m)) == PairOf(m);
    if PairOf(m).Some? {
      RunKeepsShape(q, Str(PairOf(m).value));
    }
  }

  lemma BoundCommutes(q: Pass, m: map<string, Value>, exclusive: string, bound: string)
    ensures WithBound(RunFields(q, m), exclusive, bound) == RunFields(q, WithBound(m, exclusive, bound))
  {
    forall k | k in m {
      RunKeepsShape(q, m[k]);
    }
    RunKeepsShape(q, Bool(true));
  }

  lemma BoundsCommute(m: map<string, Value>, e1: string, b1: string, e2: string, b2: string)
    requires e1 != b1 && e1 != e2 && e1 != b2 && b1 != e2 && b1 != b2 && e2 != b2
    ensures WithBound(WithBound(m, e1, b1), e2, b2) == WithBound(WithBound(m, e2, b2), e1, b1)
    ensures WithBound(WithBound(m, e1, b1), e1, b1) == WithBound(m, e1, b1)
    ensures WithBound(WithBound(m, e2, b2), e2, b2) == WithBound(m, e2, b2)
  {
  }

  lemma NullableCommutes(m: map<string, Value>, e: string, b: string)
    requires e != b && e != "type" && e != "nullable" && b != "type" && b != "nullable"
    ensures WithNullable(WithBound(m, e, b)) == WithBound(WithNullable(m), e, b)
  {
  }

  lemma ItemsCommute(m: map<string, Value>, e: string, b: string)
    requires e != b && e != "items" && e != "prefixItems" && b != "items" && b != "prefixItems"
    ensures WithoutBooleanItems(WithBound(m, e, b)) == WithBound(WithoutBooleanItems(m), e, b)
    ensures WithoutBooleanItems(WithNullable(m)) == WithNullable(WithoutBooleanItems(m))
  {
  }

  lemma LocalsCommute(p: Pass, q: Pass, m: map<string, Value>)
    ensures Local(p, Local(q, m)) == Local(q, Local(p, m))
    ensures Local(p, Local(p, m)) == Local(p, m)
  {
    var e1, b1, e2, b2 := "exclusiveMinimum", "minimum", "exclusiveMaximum", "maximum";
    var low := WithBound(m, e1, b1);
    BoundsCommute(m, e1, b1, e2, b2);
    BoundsCommute(low, e1, b1, e2, b2);
    NullableCommutes(m, e1, b1);
    NullableCommutes(low, e2, b2);
    ItemsCommute(m, e1, b1);
    ItemsCommute(low, e2, b2);
    NullableTwice(m);
  }

  lemma NullableTwice(m: map<string, Value>)
    ensures WithNullable(WithNullable(m)) == WithNullable(m)
    ensures WithoutBooleanItems(WithoutBooleanItems(m)) == WithoutBooleanItems(m)
  {
  }

  /** Any two passes give the same document in either order. */
  lemma {:induction false} PassesCommute(p: Pass, q: Pass, v: Value)
    ensures Run(p, Run(q, v)) == Run(q, Run(p, v))
    decreases v, 1
  {
    match v
    case Arr(items) =>
      forall i | 0 <= i < |items|
        ensures Run(p, Run(q, items[i])) == Run(q, Run(p, items[i]))
      {
        PassesCommute(p, q, items[i]);
      }
      assert Run(p, Run(q, v)).items == Run(q, Run(p, v)).items;
    case Obj(m) => ObjectPassesCommute(p, q, m);
    case _ =>
  }

  lemma {:induction false} ObjectPassesCommute(p: Pass, q: Pass, m: map<string, Value>)
    ensures Run(p, Run(q, Obj(m))) == Run(q, Run(p, Obj(m)))
    decreases Obj(m), 0
  {
    RunTwice(p, q, m);
    RunTwice(q, p, m);
    LocalsCommute(p, q, m);
    var h := Local(p, Local(q, m));
    LocalTwiceValues(p, q, m);
    forall k | k in h
      ensures Run(p, Run(q, h[k])) == Run(q, Run(p, h[k]))
    {
      if h[k].Arr? || h[k].Obj? {
        assert m[k] < Obj(m);
        PassesCommute(p, q, m[k]);
      } else {
        RunKeepsShape(p, h[k]);
        RunKeepsShape(q, h[k]);
      }
    }
    ChildrenCommute(p, q, h);
  }

  lemma ChildrenCommute(p: Pass, q: Pass, h: map<string, Value>)
    requires forall k | k in h :: Run(p, Run(q, h[k])) == Run(q, Run(p, h[k]))
    ensures RunFields(p, RunFields(q, h)) == RunFields(q, RunFields(p, h))
  {
  }

  lemma LocalTwiceValues(p: Pass, q: Pass, m: map<string, Value>)
    ensures var h := Local(p, Local(q, m));
            forall k | k in h && (h[k].Arr? || h[k].Obj?) :: k in m && h[k] == m[k]
  {
    LocalValues(q, m);
    LocalValues(p, Local(q, m));
  }

  lemma RunTwice(p: Pass, q: Pass, m: map<string, Value>)
    ensures Run(p, Run(q, Obj(m))) == Obj(RunFields(p, RunFields(q, Local(p, Local(q, m)))))
  {
    RunObject(q, m);
    RunObject(p, RunFields(q, Local(q, m)));
    LocalCommutesWithChildren(p, q, Local(q, m));
  }

  /** Running a pass again changes nothing. */
  lemma {:induction false} PassesAreIdempotent(p: Pass, v: Value)
    ensures Run(p, Run(p, v)) == Run(p, v)
    decreases v, 1
  {
    match v
    case Arr(items) =>
      forall i | 0 <= i < |items|
        ensures Run(p, Run(p, items[i])) == Run(p, items[i])
      {
        PassesAreIdempotent(p, items[i]);
      }
      assert Run(p, Run(p, v)).items == Run(p, v).items;
    case Obj(m) => ObjectPassesAreIdempotent(p, m);
    case _ =>
  }

  lemma {:induction false} ObjectPassesAreIdempotent(p: Pass, m: map<string, Value>)
    ensures Run(p, Run(p, Obj(m))) == Run(p, Obj(m))
    decreases Obj(m), 0
  {
    RunTwice(p, p, m);
    LocalsCommute(p, p, m);
    RunObject(p, m);
    var h := Local(p, m);
    LocalValues(p, m);
    forall k | k in h
      ensures Run(p, Run(p, h[k])) == Run(p, h[k])
    {
      if h[k].Arr? || h[k].Obj? {
        assert m[k] < Obj(m);
        PassesAreIdempotent(p, m[k]);
      } else {
        RunKeepsShape(p, h[k]);
      }
    }
    assert RunFields(p, RunFields(p, h)) == RunFields(p, h);
  }

  /** Normalising a normal form changes nothing. */
  lemma NormaliseTwice(v: Value)
    ensures Normalise(Normalise(v)) == Normalise(v)
  {
    var w := Run(Nullables, v);
    PassesCommute(Nullables, ExclusiveBounds, w);
    PassesAreIdempotent(Nullables, v);
    PassesAreIdempotent(ExclusiveBounds, w);
  }
}
