/** What whole documents mean, references followed to their components, and that normalising a document keeps it. */
module Documents {
  import opened Strings
  import opened Json
  import opened Normaliser
  import opened Dialects
  import Schemas

  // ---- components and references to them ----

  function Components(root: Value): map<string, Value> {
    if root.HasObj("components") then root.fields["components"].ObjectAt("schemas") else map[]
  }

  function ComponentOf(root: Value, r: string): Option<Value> {
    if StartsWith(r, Schemas.COMPONENT_PREFIX) && r[|Schemas.COMPONENT_PREFIX|..] in Components(root)
    then Some(Components(root)[r[|Schemas.COMPONENT_PREFIX|..]])
    else None
  }

  predicate HoldsSchemas(root: Value) {
    root.Obj? && forall n | n in Components(root) :: IsSchema(Components(root)[n])
  }

  /** Followed in the normalised document, a reference leads to the normal form of what it led to. */
  lemma ComponentNormalised(root: Value, r: string)
    requires HoldsSchemas(root)
    ensures ComponentOf(Normalise(root), r).Some? == ComponentOf(root, r).Some?
    ensures ComponentOf(root, r).Some? ==>
              ComponentOf(Normalise(root), r).value == Normalise(ComponentOf(root, r).value)
  {
    Elsewhere(root, "components");
    if root.Has("components") {
      NormalisedShape(root.fields["components"]);
      if root.HasObj("components") {
        assert Components(root) == root.fields["components"].ObjectAt("schemas");
        SchemasElsewhere(root.fields["components"], "schemas");
      }
    }
  }

  // ---- readings ----

  /**
   * `named` is what references mean in the document: a component's reference accepts what the component accepts. Of
   * references that lead elsewhere, `elsewhere` says what they accept.
   */
  ghost predicate Reads(d: Dialect, root: Value, elsewhere: (string, Value) -> bool, named: (string, Value) -> bool) {
    forall r, v :: named(r, v) <==> ReadAt(d, root, elsewhere, named, r, v)
  }

  ghost predicate ReadAt(d: Dialect, root: Value, elsewhere: (string, Value) -> bool, named: (string, Value) -> bool,
                         r: string, v: Value)
  {
    match ComponentOf(root, r)
    case Some(s) => Valid(d, named, s, v)
    case None => elsewhere(r, v)
  }

  ghost predicate SoundDocument(named: (string, Value) -> bool, root: Value) {
    HoldsSchemas(root) && forall r | ComponentOf(root, r).Some? :: Sound(named, ComponentOf(root, r).value)
  }

  /** What references mean in a sound document under 3.1 rules is what they mean in its normal form under 3.0 rules. */
  lemma ReadingIsKept(root: Value, elsewhere: (string, Value) -> bool, named: (string, Value) -> bool)
    requires SoundDocument(named, root)
    ensures Reads(Oas31, root, elsewhere, named) <==> Reads(Oas30, Normalise(root), elsewhere, named)
  {
    forall r, v
      ensures ReadAt(Oas31, root, elsewhere, named, r, v) <==> ReadAt(Oas30, Normalise(root), elsewhere, named, r, v)
    {
      ComponentNormalised(root, r);
      if ComponentOf(root, r).Some? {
        NormalisingKeepsMeaning(named, ComponentOf(root, r).value, v);
      }
    }
  }

  // ---- when a document has a meaning ----

  /** The references a schema applies to the same value have ranks below `bound`. */
  ghost predicate Below(rank: map<string, nat>, s: Value, bound: nat) {
    s.Obj? ==>
      && (s.HasStr("$ref") && s.fields["$ref"].s in rank ==> rank[s.fields["$ref"].s] < bound)
      && (s.Has("not") ==> Below(rank, s.fields["not"], bound))
      && forall k, x | k in {"allOf", "anyOf", "oneOf"} && x in s.ArrayAt(k) :: Below(rank, x, bound)
  }

  /** No component comes back to itself on the same value: each applies only references of lower rank to it. */
  ghost predicate Ranked(rank: map<string, nat>, root: Value) {
    forall r | ComponentOf(root, r).Some? :: r in rank && Below(rank, ComponentOf(root, r).value, rank[r])
  }

  predicate AllUnder(rank: map<string, nat>, top: nat) {
    forall r | r in rank :: rank[r] < top
  }

  lemma {:induction false} BelowTop(rank: map<string, nat>, s: Value, top: nat)
    requires AllUnder(rank, top)
    ensures Below(rank, s, top)
  {
    if s.Obj? {
      if s.Has("not") {
        BelowTop(rank, s.fields["not"], top);
      }
      forall k, x | k in {"allOf", "anyOf", "oneOf"} && x in s.ArrayAt(k)
        ensures Below(rank, x, top)
      {
        BelowTop(rank, x, top);
      }
    }
  }

  /** Two meanings of references agree wherever validating `v` may ask for one: inside it, and on it below `bound`. */
  ghost predicate Agree(rank: map<string, nat>, m: (string, Value) -> bool, n: (string, Value) -> bool, v: Value,
                        bound: nat) {
    forall q, w | Height(w) < Height(v) || (w == v && (q in rank ==> rank[q] < bound)) :: m(q, w) == n(q, w)
  }

  /** Validity asks for the meaning of references nowhere else. */
  lemma {:induction false} ValidDepends(d: Dialect, rank: map<string, nat>, top: nat, m: (string, Value) -> bool,
                                        n: (string, Value) -> bool, s: Value, v: Value, bound: nat)
    requires AllUnder(rank, top) && Below(rank, s, bound) && Agree(rank, m, n, v, bound)
    ensures Valid(d, m, s, v) == Valid(d, n, s, v)
    decreases s, 2
  {
    if s.Obj? {
      if s.HasStr("$ref") {
        var r := s.fields["$ref"].s;
        assert m(r, v) == n(r, v);
      }
      ChildrenDepend(d, rank, top, m, n, s, v, bound);
      CompositionsDepend(d, rank, top, m, n, s, v, bound);
      assert OthersAllow(d, m, s, v) == OthersAllow(d, n, s, v);
    }
  }

  lemma {:induction false} CompositionsDepend(d: Dialect, rank: map<string, nat>, top: nat, m: (string, Value) -> bool,
                                              n: (string, Value) -> bool, s: Value, v: Value, bound: nat)
    requires AllUnder(rank, top) && Below(rank, s, bound) && Agree(rank, m, n, v, bound) && s.Obj?
    ensures CompositionsAllow(d, m, s, v) == CompositionsAllow(d, n, s, v)
    decreases s, 1
  {
    HoldingDepends(d, rank, top, m, n, s, "allOf", v, bound);
    HoldingDepends(d, rank, top, m, n, s, "anyOf", v, bound);
    HoldingDepends(d, rank, top, m, n, s, "oneOf", v, bound);
    if s.Has("not") {
      ValidDepends(d, rank, top, m, n, s.fields["not"], v, bound);
    }
  }

  lemma {:induction false} HoldingDepends(d: Dialect, rank: map<string, nat>, top: nat, m: (string, Value) -> bool,
                                          n: (string, Value) -> bool, s: Value, key: string, v: Value, bound: nat)
    requires AllUnder(rank, top) && Below(rank, s, bound) && Agree(rank, m, n, v, bound)
    requires s.Obj? && key in {"allOf", "anyOf", "oneOf"}
    ensures Holding(d, m, s, key, v) == Holding(d, n, s, key, v)
    decreases s, 0
  {
    forall i: nat | i < |s.ArrayAt(key)|
      ensures Valid(d, m, s.ArrayAt(key)[i], v) == Valid(d, n, s.ArrayAt(key)[i], v)
    {
      assert s.ArrayAt(key)[i] in s.ArrayAt(key);
      ValidDepends(d, rank, top, m, n, s.ArrayAt(key)[i], v, bound);
    }
  }

  lemma AgreeInside(rank: map<string, nat>, top: nat, m: (string, Value) -> bool, n: (string, Value) -> bool,
                    v: Value, inner: Value, bound: nat)
    requires Agree(rank, m, n, v, bound) && Height(inner) < Height(v)
    ensures Agree(rank, m, n, inner, top)
  {
  }

  /** On a value inside `v`, any schema: everything asked for there lies inside `v`. */
  lemma {:induction false} InnerDepends(d: Dialect, rank: map<string, nat>, top: nat, m: (string, Value) -> bool,
                                        n: (string, Value) -> bool, s: Value, v: Value, inner: Value, bound: nat)
    requires AllUnder(rank, top) && Agree(rank, m, n, v, bound) && Height(inner) < Height(v)
    ensures Valid(d, m, s, inner) == Valid(d, n, s, inner)
    decreases s, 3
  {
    BelowTop(rank, s, top);
    AgreeInside(rank, top, m, n, v, inner, bound);
    ValidDepends(d, rank, top, m, n, s, inner, top);
  }

  lemma {:induction false} ChildrenDepend(d: Dialect, rank: map<string, nat>, top: nat, m: (string, Value) -> bool,
                                          n: (string, Value) -> bool, s: Value, v: Value, bound: nat)
    requires AllUnder(rank, top) && Agree(rank, m, n, v, bound) && s.Obj?
    ensures ChildrenAllow(d, m, s, v) == ChildrenAllow(d, n, s, v)
    decreases s, 1
  {
    if v.Obj? {
      var props := s.ObjectAt("properties");
      forall k | k in v.fields
        ensures k in props ==> Valid(d, m, props[k], v.fields[k]) == Valid(d, n, props[k], v.fields[k])
        ensures s.Has("additionalProperties") ==>
                  Valid(d, m, s.fields["additionalProperties"], v.fields[k]) ==
                  Valid(d, n, s.fields["additionalProperties"], v.fields[k])
      {
        FieldIsLower(v, k);
        if k in props {
          InnerDepends(d, rank, top, m, n, props[k], v, v.fields[k], bound);
        }
        if s.Has("additionalProperties") {
          InnerDepends(d, rank, top, m, n, s.fields["additionalProperties"], v, v.fields[k], bound);
        }
      }
    }
    if v.Arr? {
      var prefix := s.ArrayAt("prefixItems");
      forall i | 0 <= i < |v.items|
        ensures i < |prefix| ==> Valid(d, m, prefix[i], v.items[i]) == Valid(d, n, prefix[i], v.items[i])
        ensures s.Has("items") ==>
                  Valid(d, m, s.fields["items"], v.items[i]) == Valid(d, n, s.fields["items"], v.items[i])
      {
        ItemIsLower(v, v.items[i]);
        if i < |prefix| {
          InnerDepends(d, rank, top, m, n, prefix[i], v, v.items[i], bound);
        }
        if s.Has("items") {
          InnerDepends(d, rank, top, m, n, s.fields["items"], v, v.items[i], bound);
        }
      }
    }
  }

  // ---- there is one reading, and only one ----

  function RankAt(rank: map<string, nat>, r: string): nat {
    if r in rank then rank[r] else 0
  }

  lemma {:induction false} OneReading(d: Dialect, root: Value, elsewhere: (string, Value) -> bool,
                                      rank: map<string, nat>, top: nat, m: (string, Value) -> bool,
                                      n: (string, Value) -> bool, r: string, v: Value)
    requires Ranked(rank, root) && AllUnder(rank, top)
    requires Reads(d, root, elsewhere, m) && Reads(d, root, elsewhere, n)
    ensures m(r, v) == n(r, v)
    decreases Height(v), RankAt(rank, r), if ComponentOf(root, r).Some? then 1 else 0
  {
    assert m(r, v) <==> ReadAt(d, root, elsewhere, m, r, v);
    assert n(r, v) <==> ReadAt(d, root, elsewhere, n, r, v);
    if ComponentOf(root, r).Some? {
      forall q, w | Height(w) < Height(v) || (w == v && (q in rank ==> rank[q] < rank[r]))
        ensures m(q, w) == n(q, w)
      {
        if q in rank || Height(w) < Height(v) {
          OneReading(d, root, elsewhere, rank, top, m, n, q, w);
        } else {
          assert m(q, w) <==> ReadAt(d, root, elsewhere, m, q, w);
          assert n(q, w) <==> ReadAt(d, root, elsewhere, n, q, w);
        }
      }
      ValidDepends(d, rank, top, m, n, ComponentOf(root, r).value, v, rank[r]);
    }
  }

  /** What references mean when they are followed at most `fuel` times, and taken to accept nothing after that. */
  ghost function Unfolding(d: Dialect, root: Value, elsewhere: (string, Value) -> bool, fuel: nat)
    : (string, Value) -> bool
    decreases fuel, 1
  {
    (r, v) => Unfolded(d, root, elsewhere, fuel, r, v)
  }

  ghost predicate Unfolded(d: Dialect, root: Value, elsewhere: (string, Value) -> bool, fuel: nat, r: string, v: Value)
    decreases fuel, 0
  {
    match ComponentOf(root, r)
    case Some(s) => fuel > 0 && Valid(d, Unfolding(d, root, elsewhere, fuel - 1), s, v)
    case None => elsewhere(r, v)
  }

  /** How often references have to be followed for a value. */
  ghost function Need(rank: map<string, nat>, top: nat, r: string, v: Value): (n: nat)
    ensures n > 0
  {
    Height(v) * top + RankAt(rank, r) + 1
  }

  lemma LessTimes(a: nat, b: nat, n: nat)
    requires a < b
    ensures a * n + n <= b * n
  {
    assert (a + 1) * n <= b * n;
  }

  lemma NeedsLess(rank: map<string, nat>, top: nat, r: string, v: Value, q: string, w: Value)
    requires AllUnder(rank, top) && q in rank && r in rank
    requires Height(w) < Height(v) || (w == v && rank[q] < rank[r])
    ensures Need(rank, top, q, w) < Need(rank, top, r, v)
  {
    if Height(w) < Height(v) {
      LessTimes(Height(w), Height(v), top);
    }
  }

  /** Following them more often makes no difference. */
  lemma {:induction false} UnfoldingSettles(d: Dialect, root: Value, elsewhere: (string, Value) -> bool,
                                            rank: map<string, nat>, top: nat, f: nat, g: nat, r: string, v: Value)
    requires Ranked(rank, root) && AllUnder(rank, top) && Need(rank, top, r, v) <= f && Need(rank, top, r, v) <= g
    ensures Unfolded(d, root, elsewhere, f, r, v) == Unfolded(d, root, elsewhere, g, r, v)
    decreases Need(rank, top, r, v)
  {
    if ComponentOf(root, r).Some? {
      var m, n := Unfolding(d, root, elsewhere, f - 1), Unfolding(d, root, elsewhere, g - 1);
      forall q, w | Height(w) < Height(v) || (w == v && (q in rank ==> rank[q] < rank[r]))
        ensures m(q, w) == n(q, w)
      {
        if ComponentOf(root, q).Some? {
          NeedsLess(rank, top, r, v, q, w);
          UnfoldingSettles(d, root, elsewhere, rank, top, f - 1, g - 1, q, w);
        } else {
          assert Unfolded(d, root, elsewhere, f - 1, q, w) == Unfolded(d, root, elsewhere, g - 1, q, w);
        }
      }
      ValidDepends(d, rank, top, m, n, ComponentOf(root, r).value, v, rank[r]);
    }
  }

  /** The meaning of references in a ranked document. */
  ghost function Reading(d: Dialect, root: Value, elsewhere: (string, Value) -> bool, rank: map<string, nat>, top: nat)
    : (string, Value) -> bool
  {
    (r, v) => Unfolded(d, root, elsewhere, Need(rank, top, r, v), r, v)
  }

  lemma ReadingReads(d: Dialect, root: Value, elsewhere: (string, Value) -> bool, rank: map<string, nat>, top: nat)
    requires Ranked(rank, root) && AllUnder(rank, top)
    ensures Reads(d, root, elsewhere, Reading(d, root, elsewhere, rank, top))
  {
    var named := Reading(d, root, elsewhere, rank, top);
    forall r, v
      ensures named(r, v) <==> ReadAt(d, root, elsewhere, named, r, v)
    {
      ReadingReadsAt(d, root, elsewhere, rank, top, r, v);
    }
  }

  lemma ReadingReadsAt(d: Dialect, root: Value, elsewhere: (string, Value) -> bool, rank: map<string, nat>, top: nat,
                       r: string, v: Value)
    requires Ranked(rank, root) && AllUnder(rank, top)
    ensures var named := Reading(d, root, elsewhere, rank, top);
            named(r, v) <==> ReadAt(d, root, elsewhere, named, r, v)
  {
    var named := Reading(d, root, elsewhere, rank, top);
    if ComponentOf(root, r).Some? {
      var fuel: nat := Need(rank, top, r, v) - 1;
      var m := Unfolding(d, root, elsewhere, fuel);
      forall q, w | Height(w) < Height(v) || (w == v && (q in rank ==> rank[q] < rank[r]))
        ensures m(q, w) == named(q, w)
      {
        if ComponentOf(root, q).Some? {
          NeedsLess(rank, top, r, v, q, w);
          UnfoldingSettles(d, root, elsewhere, rank, top, fuel, Need(rank, top, q, w), q, w);
        } else {
          assert Unfolded(d, root, elsewhere, fuel, q, w) == Unfolded(d, root, elsewhere, Need(rank, top, q, w), q, w);
        }
      }
      ValidDepends(d, rank, top, m, named, ComponentOf(root, r).value, v, rank[r]);
    }
  }

  lemma {:induction false} SomeTop(rank: map<string, nat>) returns (top: nat)
    ensures AllUnder(rank, top)
  {
    var ranks := set r | r in rank :: rank[r];
    top := MaxOf(ranks) + 1;
    assert forall r | r in rank :: rank[r] in ranks;
  }

  /** Normalising moves no reference: what is ranked stays ranked. */
  lemma {:induction false} BelowNormalised(rank: map<string, nat>, s: Value, bound: nat)
    requires Below(rank, s, bound)
    ensures Below(rank, Normalise(s), bound)
    decreases s, 1
  {
    NormalisedShape(s);
    if s.Obj? {
      Elsewhere(s, "$ref");
      if s.HasStr("$ref") {
        NormalisedShape(s.fields["$ref"]);
      }
      Elsewhere(s, "not");
      if s.Has("not") {
        BelowNormalised(rank, s.fields["not"], bound);
      }
      BranchesNormalised(rank, s, "allOf", bound);
      BranchesNormalised(rank, s, "anyOf", bound);
      BranchesNormalised(rank, s, "oneOf", bound);
    }
  }

  lemma {:induction false} BranchesNormalised(rank: map<string, nat>, s: Value, key: string, bound: nat)
    requires s.Obj? && Below(rank, s, bound) && key in {"allOf", "anyOf", "oneOf"}
    ensures forall x | x in Normalise(s).ArrayAt(key) :: Below(rank, x, bound)
    decreases s, 0
  {
    Elsewhere(s, key);
    forall i | 0 <= i < |s.ArrayAt(key)|
      ensures Below(rank, Normalise(s).ArrayAt(key)[i], bound)
    {
      assert s.ArrayAt(key)[i] in s.ArrayAt(key);
      BelowNormalised(rank, s.ArrayAt(key)[i], bound);
    }
  }

  /** The one meaning references have in a document. */
  ghost predicate OnlyReading(d: Dialect, root: Value, elsewhere: (string, Value) -> bool,
                              named: (string, Value) -> bool) {
    && Reads(d, root, elsewhere, named)
    && forall other | Reads(d, root, elsewhere, other) :: Same(other, named)
  }

  ghost predicate Same(m: (string, Value) -> bool, n: (string, Value) -> bool) {
    forall r, v :: m(r, v) == n(r, v)
  }

  /**
   * When no component comes back to itself on the same value, references have exactly one meaning, in either dialect.
   */
  lemma RankedHasReading(d: Dialect, root: Value, elsewhere: (string, Value) -> bool, rank: map<string, nat>)
    returns (named: (string, Value) -> bool)
    requires Ranked(rank, root)
    ensures OnlyReading(d, root, elsewhere, named)
  {
    var top := SomeTop(rank);
    named := Reading(d, root, elsewhere, rank, top);
    ReadingReads(d, root, elsewhere, rank, top);
    RankedHasOnly(d, root, elsewhere, rank, named);
  }

  /**
   * Normalising a whole document keeps its meaning. Let no component come back to itself on the same value, let
   * references mean under 3.1 rules what `named` says, and let the components be sound. Then `named` is also the one
   * thing they mean in the normalised document under 3.0 rules, and every sound schema of the document accepts there
   * what it accepted.
   */
  lemma DocumentKeepsMeaning(root: Value, elsewhere: (string, Value) -> bool, rank: map<string, nat>,
                             named: (string, Value) -> bool, s: Value, v: Value)
    requires Ranked(rank, root) && Reads(Oas31, root, elsewhere, named) && SoundDocument(named, root) && Sound(named, s)
    ensures OnlyReading(Oas31, root, elsewhere, named) && OnlyReading(Oas30, Normalise(root), elsewhere, named)
    ensures Valid(Oas31, named, s, v) <==> Valid(Oas30, named, Normalise(s), v)
  {
    RankedNormalised(rank, root);
    ReadingIsKept(root, elsewhere, named);
    RankedHasOnly(Oas31, root, elsewhere, rank, named);
    RankedHasOnly(Oas30, Normalise(root), elsewhere, rank, named);
    NormalisingKeepsMeaning(named, s, v);
  }

  lemma RankedHasOnly(d: Dialect, root: Value, elsewhere: (string, Value) -> bool, rank: map<string, nat>,
                      named: (string, Value) -> bool)
    requires Ranked(rank, root) && Reads(d, root, elsewhere, named)
    ensures OnlyReading(d, root, elsewhere, named)
  {
    var top := SomeTop(rank);
    forall other | Reads(d, root, elsewhere, other)
      ensures Same(other, named)
    {
      forall r, v
        ensures other(r, v) == named(r, v)
      {
        OneReading(d, root, elsewhere, rank, top, other, named, r, v);
      }
    }
  }

  lemma RankedNormalised(rank: map<string, nat>, root: Value)
    requires Ranked(rank, root) && HoldsSchemas(root)
    ensures Ranked(rank, Normalise(root))
  {
    forall r | ComponentOf(Normalise(root), r).Some?
      ensures r in rank && Below(rank, ComponentOf(Normalise(root), r).value, rank[r])
    {
      ComponentNormalised(root, r);
      BelowNormalised(rank, ComponentOf(root, r).value, rank[r]);
    }
  }
}
