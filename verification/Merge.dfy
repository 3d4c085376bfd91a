/** `deep_merge`: the collapse of `allOf` branches into one schema. */
module Merge {
  import opened Json

  /** Keywords whose arrays are joined rather than replaced. */
  const CONCAT_KEYS: set<string> := {"required", "allOf", "anyOf", "oneOf"}

  /** What `merge_arrays_dedup` takes from an operand that may not be an array. */
  function Items(v: Value): seq<Value> {
    if v.Arr? then v.items else []
  }

  /** Pushes each element of `xs` that is not there yet. */
  function AppendNew(acc: seq<Value>, xs: seq<Value>): (r: seq<Value>)
    ensures acc <= r
    ensures forall x :: x in r <==> x in acc || x in xs
    decreases |xs|
  {
    if xs == [] then acc
    else
      assert xs == [xs[0]] + xs[1..];
      AppendNew(if xs[0] in acc then acc else acc + [xs[0]], xs[1..])
  }

  lemma AppendNewStep(acc: seq<Value>, xs: seq<Value>, i: nat)
    requires i < |xs|
    ensures AppendNew(acc, xs[i..]) == AppendNew(if xs[i] in acc then acc else acc + [xs[i]], xs[i + 1..])
  {
    assert xs[i..][1..] == xs[i + 1..];
  }

  function Concat(base: Value, overlay: Value): Value {
    Arr(AppendNew(Items(base), Items(overlay)))
  }

  function MergeAt(key: string, base: Value, overlay: Value): Value
    decreases overlay, 1
  {
    if key in CONCAT_KEYS then Concat(base, overlay) else Merge(base, overlay)
  }

  function Merge(base: Value, overlay: Value): Value
    decreases overlay, 0
  {
    if base.Obj? && overlay.Obj? then
      Obj(map k | k in base.fields.Keys + overlay.fields.Keys ::
            if k !in overlay.fields then base.fields[k]
            else if k !in base.fields then overlay.fields[k]
            else MergeAt(k, base.fields[k], overlay.fields[k]))
    else
      overlay
  }

  method MergeArraysDedup(base: Value, overlay: Value) returns (r: Value)
    ensures r == Concat(base, overlay)
  {
    var combined: seq<Value> := [];
    if base.Arr? {
      combined := combined + base.items;
    }
    assert combined == Items(base);
    if overlay.Arr? {
      assert overlay.items[0..] == overlay.items;
      for i := 0 to |overlay.items|
        invariant AppendNew(combined, overlay.items[i..]) == AppendNew(Items(base), overlay.items)
      {
        AppendNewStep(combined, overlay.items, i);
        if overlay.items[i] !in combined {
          combined := combined + [overlay.items[i]];
        }
      }
    }
    return Arr(combined);
  }

  method DeepMerge(base: Value, overlay: Value) returns (r: Value)
    ensures r == Merge(base, overlay)
    decreases overlay
  {
    if !base.Obj? || !overlay.Obj? {
      return overlay;
    }
    var target := base.fields;
    var todo := overlay.fields.Keys;
    while todo != {}
      invariant todo <= overlay.fields.Keys
      invariant target.Keys == base.fields.Keys + (overlay.fields.Keys - todo)
      invariant forall k | k in target ::
          target[k] == if k in base.fields && (k in todo || k !in overlay.fields) then base.fields[k]
                       else Merge(base, overlay).fields[k]
      decreases todo
    {
      var key :| key in todo;
      var overlayVal := overlay.fields[key];
      var merged := overlayVal;
      if key in target {
        var baseVal := target[key];
        target := target - {key};
        if key in CONCAT_KEYS {
          merged := MergeArraysDedup(baseVal, overlayVal);
        } else {
          merged := DeepMerge(baseVal, overlayVal);
        }
      }
      target := target[key := merged];
      todo := todo - {key};
    }
    return Obj(target);
  }

  lemma MergeField(base: Value, overlay: Value, k: string)
    requires base.Obj? && overlay.Obj?
    requires k in base.fields.Keys + overlay.fields.Keys
    ensures Merge(base, overlay).Has(k)
    ensures Merge(base, overlay).fields[k] ==
            if k !in overlay.fields then base.fields[k]
            else if k !in base.fields then overlay.fields[k]
            else if k in CONCAT_KEYS then Concat(base.fields[k], overlay.fields[k])
            else Merge(base.fields[k], overlay.fields[k])
  {
  }

  // ---- size and references ----

  lemma ConcatIsNoHigher(base: Value, overlay: Value, bound: nat)
    requires Height(base) <= bound && Height(overlay) <= bound
    ensures Height(Concat(base, overlay)) <= bound
  {
    if base.Arr? {
      ArrayHeight(base, bound);
    }
    if overlay.Arr? {
      ArrayHeight(overlay, bound);
    }
    ArrayHeight(Concat(base, overlay), bound);
  }

  lemma {:induction false} MergeIsNoHigher(base: Value, overlay: Value, bound: nat)
    requires Height(base) <= bound && Height(overlay) <= bound
    ensures Height(Merge(base, overlay)) <= bound
    decreases overlay
  {
    if base.Obj? && overlay.Obj? {
      var m := Merge(base, overlay);
      ObjectHeight(base, bound);
      ObjectHeight(overlay, bound);
      forall k | k in m.fields
        ensures Height(m.fields[k]) < bound
      {
        if k in base.fields && k in overlay.fields {
          MergeField(base, overlay, k);
          if k in CONCAT_KEYS {
            ConcatIsNoHigher(base.fields[k], overlay.fields[k], bound - 1);
          } else {
            MergeIsNoHigher(base.fields[k], overlay.fields[k], bound - 1);
          }
        }
      }
      ObjectHeight(m, bound);
    }
  }

  lemma {:induction false} MergeAddsNoReference(base: Value, overlay: Value)
    ensures Refs(Merge(base, overlay)) <= Refs(base) + Refs(overlay)
    decreases overlay
  {
    if base.Obj? && overlay.Obj? {
      var m := Merge(base, overlay);
      forall r | r in Refs(m)
        ensures r in Refs(base) + Refs(overlay)
      {
        if m.HasStr("$ref") && r == m.fields["$ref"].s {
          MergeField(base, overlay, "$ref");
        } else {
          var k :| k in m.fields && r in Refs(m.fields[k]);
          MergeField(base, overlay, k);
          if k in base.fields && k in overlay.fields {
            assert Refs(base.fields[k]) <= Refs(base) && Refs(overlay.fields[k]) <= Refs(overlay);
            if k !in CONCAT_KEYS {
              MergeAddsNoReference(base.fields[k], overlay.fields[k]);
            }
          }
        }
      }
    }
  }

  // ---- algebra ----

  /** Every key of either side survives; a key of one side alone keeps its value; joined arrays keep the base first. */
  lemma MergeKeepsEveryKey(base: Value, overlay: Value)
    requires base.Obj? && overlay.Obj?
    ensures var m := Merge(base, overlay);
            && m.Obj?
            && m.fields.Keys == base.fields.Keys + overlay.fields.Keys
            && (forall k | k in base.fields && k !in overlay.fields :: m.fields[k] == base.fields[k])
            && (forall k | k in overlay.fields && k !in base.fields :: m.fields[k] == overlay.fields[k])
            && (forall k | k in CONCAT_KEYS && base.HasArr(k) && overlay.HasArr(k) ::
                  && m.HasArr(k)
                  && base.fields[k].items <= m.fields[k].items
                  && (forall x :: x in m.fields[k].items <==>
                      x in base.fields[k].items || x in overlay.fields[k].items))
  {
    forall k | k in CONCAT_KEYS && base.HasArr(k) && overlay.HasArr(k)
      ensures Merge(base, overlay).fields[k] == Concat(base.fields[k], overlay.fields[k])
    {
    }
  }

  lemma {:induction false} AppendedAreNew(acc: seq<Value>, xs: seq<Value>)
    ensures Extends(acc, AppendNew(acc, xs))
    decreases |xs|
  {
    if xs != [] {
      AppendedAreNew(if xs[0] in acc then acc else acc + [xs[0]], xs[1..]);
      var r := AppendNew(acc, xs);
      if xs[0] !in acc {
        assert r[|acc|] == xs[0] && r[..|acc|] == acc;
      }
    }
  }

  /**
   * At a key of both sides: `required`, `allOf`, `anyOf` and `oneOf` hold what the base lists and behind it, each once,
   * what only the overlay lists; anywhere else two objects are merged and the overlay replaces anything else.
   */
  lemma KeywordsJoin(base: Value, overlay: Value, key: string, bs: seq<Value>, os: seq<Value>)
    requires base.Has(key) && overlay.Has(key)
    requires bs == if base.HasArr(key) then base.fields[key].items else []
    requires os == if overlay.HasArr(key) then overlay.fields[key].items else []
    ensures var m := Merge(base, overlay);
            && m.Has(key)
            && if key == "required" || key == "allOf" || key == "anyOf" || key == "oneOf" then
                 && m.HasArr(key)
                 && var joined := m.fields[key].items;
                    && Extends(bs, joined)
                    && (forall x :: x in joined <==> x in bs || x in os)
               else if base.HasObj(key) && overlay.HasObj(key) then
                 && m.HasObj(key)
                 && m.fields[key].fields.Keys == base.fields[key].fields.Keys + overlay.fields[key].fields.Keys
                 && m.fields[key] == Merge(base.fields[key], overlay.fields[key])
               else m.fields[key] == overlay.fields[key]
  {
    MergeField(base, overlay, key);
    AppendedAreNew(bs, os);
  }

  /** Joining keywords hold arrays, along every path of objects that merging follows. */
  predicate Settled(v: Value) {
    v.Obj? ==> forall k | k in v.fields :: if k in CONCAT_KEYS then v.fields[k].Arr? else Settled(v.fields[k])
  }

  lemma AppendPresent(acc: seq<Value>, xs: seq<Value>)
    requires forall x | x in xs :: x in acc
    ensures AppendNew(acc, xs) == acc
    decreases |xs|
  {
    if xs != [] {
      assert xs == [xs[0]] + xs[1..];
      AppendPresent(acc, xs[1..]);
    }
  }

  /** Merging a document with itself changes nothing exactly when no joining keyword holds a non-array. */
  lemma {:induction false} MergeSelf(v: Value)
    ensures Merge(v, v) == v <==> Settled(v)
  {
    if v.Obj? {
      var m := Merge(v, v);
      forall k | k in v.fields
        ensures m.fields[k] == v.fields[k] <==> if k in CONCAT_KEYS then v.fields[k].Arr? else Settled(v.fields[k])
      {
        MergeField(v, v, k);
        if k in CONCAT_KEYS {
          AppendPresent(Items(v.fields[k]), Items(v.fields[k]));
        } else {
          MergeSelf(v.fields[k]);
        }
      }
      if Settled(v) {
        assert m.fields == v.fields;
      }
    }
  }

  lemma {:induction false} AppendAssociates(a: seq<Value>, b: seq<Value>, c: seq<Value>)
    ensures AppendNew(AppendNew(a, b), c) == AppendNew(a, AppendNew(b, c))
    decreases |c|
  {
    if c != [] {
      var b' := if c[0] in b then b else b + [c[0]];
      AppendAssociates(a, b', c[1..]);
      if c[0] !in b {
        AppendSplit(a, b, [c[0]]);
      }
    }
  }

  lemma {:induction false} AppendSplit(a: seq<Value>, b: seq<Value>, c: seq<Value>)
    ensures AppendNew(a, b + c) == AppendNew(AppendNew(a, b), c)
    decreases |b|
  {
    if b == [] {
      assert b + c == c;
    } else {
      assert (b + c)[1..] == b[1..] + c;
      AppendSplit(if b[0] in a then a else a + [b[0]], b[1..], c);
    }
  }

  /** `xs` is `p` followed by elements that are new each time. */
  predicate Extends(p: seq<Value>, xs: seq<Value>) {
    p <= xs && forall i | |p| <= i < |xs| :: xs[i] !in xs[..i]
  }

  lemma {:induction false} AppendLength(acc: seq<Value>, xs: seq<Value>)
    ensures |AppendNew(acc, xs)| <= |acc| + |xs|
    decreases |xs|
  {
    if xs != [] {
      AppendLength(if xs[0] in acc then acc else acc + [xs[0]], xs[1..]);
    }
  }

  /** Each element of `xs` is new to `acc` and to the elements before it. */
  predicate AllNew(acc: seq<Value>, xs: seq<Value>)
    decreases |xs|
  {
    xs == [] || (xs[0] !in acc && AllNew(acc + [xs[0]], xs[1..]))
  }

  lemma {:induction false} AllNewMeans(acc: seq<Value>, xs: seq<Value>, whole: seq<Value>)
    requires whole == acc + xs
    ensures AllNew(acc, xs) <==> forall i | |acc| <= i < |whole| :: whole[i] !in whole[..i]
    decreases |xs|
  {
    if xs != [] {
      assert whole[..|acc|] == acc && whole[|acc|] == xs[0];
      assert whole == acc + [xs[0]] + xs[1..];
      AllNewMeans(acc + [xs[0]], xs[1..], whole);
    }
  }

  lemma {:induction false} AppendsAll(acc: seq<Value>, xs: seq<Value>, whole: seq<Value>)
    requires whole == acc + xs
    ensures AppendNew(acc, xs) == whole <==> AllNew(acc, xs)
    decreases |xs|
  {
    if xs != [] {
      if xs[0] in acc {
        AppendLength(acc, xs[1..]);
      } else {
        assert whole == acc + [xs[0]] + xs[1..];
        AppendsAll(acc + [xs[0]], xs[1..], whole);
      }
    }
  }

  lemma AppendExtends(p: seq<Value>, xs: seq<Value>)
    ensures AppendNew(p, xs) == xs <==> Extends(p, xs)
  {
    if p <= xs {
      var rest := xs[|p|..];
      assert xs == p + rest;
      AppendSplit(p, p, rest);
      AppendPresent(p, p);
      AppendsAll(p, rest, xs);
      AllNewMeans(p, rest, xs);
    }
  }

  /** `c` already says everything that laying it over `a` would say. */
  predicate Covers(c: Value, a: Value) {
    a.Obj? && c.Obj? ==>
      && a.fields.Keys <= c.fields.Keys
      && forall k | k in a.fields ::
           if k in CONCAT_KEYS then c.fields[k].Arr? && Extends(Items(a.fields[k]), c.fields[k].items)
           else Covers(c.fields[k], a.fields[k])
  }

  lemma {:induction false} MergeCovered(a: Value, c: Value)
    ensures Merge(a, c) == c <==> Covers(c, a)
    decreases a
  {
    if a.Obj? && c.Obj? {
      var m := Merge(a, c);
      forall k | k in a.fields && k in c.fields
        ensures m.fields[k] == c.fields[k] <==>
                  if k in CONCAT_KEYS then c.fields[k].Arr? && Extends(Items(a.fields[k]), c.fields[k].items)
                  else Covers(c.fields[k], a.fields[k])
      {
        MergeField(a, c, k);
        if k in CONCAT_KEYS {
          AppendExtends(Items(a.fields[k]), Items(c.fields[k]));
        } else {
          MergeCovered(a.fields[k], c.fields[k]);
        }
      }
      if m == c {
        assert forall k | k in a.fields :: k in m.fields;
      }
      if Covers(c, a) {
        assert m.fields.Keys == c.fields.Keys;
        assert m.fields == c.fields;
      }
    }
  }

  /** Wherever an object is overlaid by something else and then by an object, the last one covers the first. */
  predicate Regular(a: Value, b: Value, c: Value) {
    if !a.Obj? || !c.Obj? then true
    else if !b.Obj? then Covers(c, a)
    else
      forall k | k in a.fields && k in b.fields && k in c.fields && k !in CONCAT_KEYS ::
        Regular(a.fields[k], b.fields[k], c.fields[k])
  }

  /** Merging three documents from the left or from the right agrees exactly on the regular ones. */
  lemma {:induction false} MergeAssociates(a: Value, b: Value, c: Value)
    ensures Merge(Merge(a, b), c) == Merge(a, Merge(b, c)) <==> Regular(a, b, c)
    decreases a
  {
    if a.Obj? && b.Obj? && c.Obj? {
      var left := Merge(Merge(a, b), c);
      var right := Merge(a, Merge(b, c));
      assert left.fields.Keys == right.fields.Keys;
      forall k | k in left.fields
        ensures left.fields[k] == right.fields[k] <==>
                  (k in a.fields && k in b.fields && k in c.fields && k !in CONCAT_KEYS
                   ==> Regular(a.fields[k], b.fields[k], c.fields[k]))
      {
        MergeAssociatesAt(a, b, c, k);
      }
      if Regular(a, b, c) {
        assert left.fields == right.fields;
      }
    } else if a.Obj? && c.Obj? {
      MergeCovered(a, c);
    }
  }

  lemma {:induction false} MergeAssociatesAt(a: Value, b: Value, c: Value, k: string)
    requires a.Obj? && b.Obj? && c.Obj?
    requires k in a.fields.Keys + b.fields.Keys + c.fields.Keys
    ensures Merge(Merge(a, b), c).fields[k] == Merge(a, Merge(b, c)).fields[k] <==>
              (k in a.fields && k in b.fields && k in c.fields && k !in CONCAT_KEYS
               ==> Regular(a.fields[k], b.fields[k], c.fields[k]))
    decreases a, 0
  {
    var ab, bc := Merge(a, b), Merge(b, c);
    if k in a.fields && k in b.fields && k in c.fields {
      MergeField(a, b, k);
      MergeField(b, c, k);
      MergeField(ab, c, k);
      MergeField(a, bc, k);
      if k in CONCAT_KEYS {
        AppendAssociates(Items(a.fields[k]), Items(b.fields[k]), Items(c.fields[k]));
      } else {
        MergeAssociates(a.fields[k], b.fields[k], c.fields[k]);
      }
    }
  }

  /** A property that happens to be called `required` is lost: neither side of it is an array. */
  lemma NamedLikeAKeyword()
    ensures var p := Obj(map["required" := Obj(map["type" := Str("boolean")])]);
            Merge(p, p) == Obj(map["required" := Arr([])]) && Merge(p, p) != p
  {
    var t := Obj(map["type" := Str("boolean")]);
    var p := Obj(map["required" := t]);
    assert Merge(p, p).fields["required"] == Concat(t, t);
    assert Merge(p, p).fields == map["required" := Arr([])];
  }
}
