/** The repair of an array so that the right number of its elements satisfies `contains`. */
module Contains {
  import opened Strings
  import opened Json
  import opened Randoms

  /** The array being generated, changed in place. */
  class Items {
    var items: seq<Value>

    constructor (start: seq<Value>)
      ensures items == start
    {
      items := start;
    }

    method Push(v: Value)
      modifies this
      ensures items == old(items) + [v]
    {
      items := items + [v];
    }

    method Put(i: nat, v: Value)
      requires i < |items|
      modifies this
      ensures items == old(items)[i := v]
    {
      items := items[i := v];
    }

    method Remove(i: nat)
      requires i < |items|
      modifies this
      ensures items == old(items)[..i] + old(items)[i + 1..]
    {
      items := items[..i] + items[i + 1..];
    }
  }

  /** `contains` with its bounds; the check of an element against it is a parameter. */
  datatype Rule = Rule(fits: Value -> bool, min: nat, max: Option<nat>, prohibited: bool, prefixLength: nat)

  function CountFits(items: seq<Value>, fits: Value -> bool): nat {
    if items == [] then 0 else (if fits(items[0]) then 1 else 0) + CountFits(items[1..], fits)
  }

  /** The positions whose elements fit, or do not, counted from `base`. */
  function Positions(items: seq<Value>, fits: Value -> bool, want: bool, base: nat): seq<nat>
    decreases |items|
  {
    if items == [] then []
    else if fits(items[0]) == want then [base] + Positions(items[1..], fits, want, base + 1)
    else Positions(items[1..], fits, want, base + 1)
  }

  method FindPositions(items: seq<Value>, fits: Value -> bool, want: bool) returns (at: seq<nat>)
    ensures at == Positions(items, fits, want, 0)
  {
    at := [];
    assert items[0..] == items;
    for i := 0 to |items|
      invariant Positions(items, fits, want, 0) == at + Positions(items[i..], fits, want, i)
    {
      assert items[i..][1..] == items[i + 1..];
      if fits(items[i]) == want {
        at := at + [i];
      }
    }
  }

  lemma {:induction false} PositionsCount(items: seq<Value>, fits: Value -> bool, base: nat)
    ensures |Positions(items, fits, true, base)| == CountFits(items, fits) <= |items|
    ensures |Positions(items, fits, false, base)| == |items| - CountFits(items, fits)
    decreases |items|
  {
    if items != [] {
      PositionsCount(items[1..], fits, base + 1);
    }
  }

  lemma {:induction false} CountJoins(a: seq<Value>, b: seq<Value>, fits: Value -> bool)
    ensures CountFits(a + b, fits) == CountFits(a, fits) + CountFits(b, fits)
    decreases |a|
  {
    if a == [] {
      assert a + b == b;
    } else {
      assert (a + b)[1..] == a[1..] + b;
      CountJoins(a[1..], b, fits);
    }
  }

  lemma {:induction false} AllFit(items: seq<Value>, fits: Value -> bool)
    requires forall v | v in items :: fits(v)
    ensures CountFits(items, fits) == |items|
  {
    if items != [] {
      assert items[0] in items;
      AllFit(items[1..], fits);
    }
  }

  // ---- too few: misfits make way, then the array grows ----

  /** The first misfits replaced by what is made, in order. */
  function Filled(items: seq<Value>, fits: Value -> bool, made: seq<Value>): (r: seq<Value>)
    ensures |r| == |items|
    decreases |items|
  {
    if items == [] || made == [] then items
    else if fits(items[0]) then [items[0]] + Filled(items[1..], fits, made)
    else [made[0]] + Filled(items[1..], fits, made[1..])
  }

  /** Replacing one more misfit, at its position. */
  lemma {:induction false} FilledMore(items: seq<Value>, fits: Value -> bool, made: seq<Value>, v: Value, base: nat)
    requires |made| < |Positions(items, fits, false, base)|
    ensures var p := Positions(items, fits, false, base)[|made|];
      base <= p < base + |items| && Filled(items, fits, made + [v]) == Filled(items, fits, made)[p - base := v]
    decreases |items|
  {
    if fits(items[0]) {
      FilledMore(items[1..], fits, made, v, base + 1);
      assert Filled(items, fits, made) == [items[0]] + Filled(items[1..], fits, made);
    } else if made == [] {
      assert (made + [v])[1..] == [];
      assert items == [items[0]] + items[1..];
    } else {
      FilledMore(items[1..], fits, made[1..], v, base + 1);
      assert (made + [v])[1..] == made[1..] + [v];
    }
  }

  /** What fits stays where it is, and every element put in its place is one that was made. */
  lemma {:induction false} FilledKeeps(items: seq<Value>, fits: Value -> bool, made: seq<Value>)
    requires forall v | v in made :: fits(v)
    ensures forall i | 0 <= i < |items| && fits(items[i]) :: Filled(items, fits, made)[i] == items[i]
    ensures forall i | 0 <= i < |items| && Filled(items, fits, made)[i] != items[i] ::
              Filled(items, fits, made)[i] in made
    ensures |made| <= |items| - CountFits(items, fits) ==>
              CountFits(Filled(items, fits, made), fits) == CountFits(items, fits) + |made|
    decreases |items|
  {
    if items != [] && made != [] {
      var rest := if fits(items[0]) then made else made[1..];
      FilledKeeps(items[1..], fits, rest);
      assert forall i | 0 < i < |items| :: items[i] == items[1..][i - 1];
      assert Filled(items, fits, made)[1..] == Filled(items[1..], fits, rest);
      assert made[0] in made;
    }
  }

  // ---- too many: surplus fits go ----

  /** After `skip` fitting elements that stay, the next `n` fitting elements are left out. */
  function Dropped(items: seq<Value>, fits: Value -> bool, skip: nat, n: nat): seq<Value>
    decreases |items|
  {
    if items == [] || n == 0 then items
    else if !fits(items[0]) then [items[0]] + Dropped(items[1..], fits, skip, n)
    else if skip > 0 then [items[0]] + Dropped(items[1..], fits, skip - 1, n)
    else Dropped(items[1..], fits, 0, n - 1)
  }

  /** Leaving out one more, at its position. */
  lemma {:induction false} DroppedMore(items: seq<Value>, fits: Value -> bool, k: nat, n: nat, base: nat)
    requires k < |Positions(items, fits, true, base)|
    ensures var p := Positions(items, fits, true, base)[k]; var d := Dropped(items, fits, k + 1, n);
      && base <= p < base + |d|
      && Dropped(items, fits, k, n + 1) == d[..p - base] + d[p - base + 1..]
    decreases |items|
  {
    var x := items[0];
    assert items == [x] + items[1..];
    if !fits(x) {
      DroppedMore(items[1..], fits, k, n, base + 1);
      Prepend(x, Dropped(items[1..], fits, k + 1, n), Positions(items, fits, true, base)[k] - base);
      assert Dropped(items, fits, k + 1, n) == [x] + Dropped(items[1..], fits, k + 1, n);
    } else if k > 0 {
      DroppedMore(items[1..], fits, k - 1, n, base + 1);
      Prepend(x, Dropped(items[1..], fits, k, n), Positions(items, fits, true, base)[k] - base);
      assert Dropped(items, fits, k + 1, n) == [x] + Dropped(items[1..], fits, k, n);
    } else {
      assert Dropped(items[1..], fits, 0, 0) == items[1..];
      assert Dropped(items, fits, 1, n) == [x] + Dropped(items[1..], fits, 0, n);
    }
  }

  lemma Prepend(x: Value, d: seq<Value>, p: nat)
    requires 0 < p <= |d|
    ensures ([x] + d)[..p] + ([x] + d)[p + 1..] == [x] + (d[..p - 1] + d[p..])
  {}

  function Misfits(items: seq<Value>, fits: Value -> bool): seq<Value> {
    if items == [] then [] else (if fits(items[0]) then [] else [items[0]]) + Misfits(items[1..], fits)
  }

  function Fitting(items: seq<Value>, fits: Value -> bool): seq<Value> {
    if items == [] then [] else (if fits(items[0]) then [items[0]] else []) + Fitting(items[1..], fits)
  }

  lemma {:induction false} DroppedCounts(items: seq<Value>, fits: Value -> bool, n: nat)
    requires n <= CountFits(items, fits)
    ensures CountFits(Dropped(items, fits, 0, n), fits) == CountFits(items, fits) - n
    ensures |Dropped(items, fits, 0, n)| == |items| - n
    decreases |items|
  {
    if n > 0 {
      DroppedCounts(items[1..], fits, if fits(items[0]) then n - 1 else n);
    }
  }

  lemma {:induction false} DroppedFitting(items: seq<Value>, fits: Value -> bool, n: nat)
    requires n <= CountFits(items, fits)
    ensures n <= |Fitting(items, fits)| && Fitting(Dropped(items, fits, 0, n), fits) == Fitting(items, fits)[n..]
    decreases |items|
  {
    if n > 0 {
      if fits(items[0]) {
        DroppedFitting(items[1..], fits, n - 1);
        assert Fitting(items, fits) == [items[0]] + Fitting(items[1..], fits);
      } else {
        DroppedFitting(items[1..], fits, n);
        assert Dropped(items, fits, 0, n)[1..] == Dropped(items[1..], fits, 0, n);
      }
    }
  }

  lemma {:induction false} DroppedMisfits(items: seq<Value>, fits: Value -> bool, n: nat)
    ensures Misfits(Dropped(items, fits, 0, n), fits) == Misfits(items, fits)
    decreases |items|
  {
    if items != [] && n > 0 {
      if fits(items[0]) {
        DroppedMisfits(items[1..], fits, n - 1);
      } else {
        DroppedMisfits(items[1..], fits, n);
        assert Dropped(items, fits, 0, n)[1..] == Dropped(items[1..], fits, 0, n);
      }
    }
  }

  /** Only surplus fitting elements go, the first ones; everything else stays in order. */
  lemma DroppedKeeps(items: seq<Value>, fits: Value -> bool, n: nat)
    requires n <= CountFits(items, fits)
    ensures var r := Dropped(items, fits, 0, n);
      && CountFits(r, fits) == CountFits(items, fits) - n
      && |r| == |items| - n
      && Misfits(r, fits) == Misfits(items, fits)
      && n <= |Fitting(items, fits)| && Fitting(r, fits) == Fitting(items, fits)[n..]
  {
    DroppedCounts(items, fits, n);
    DroppedFitting(items, fits, n);
    DroppedMisfits(items, fits, n);
  }

  // ---- the repair ----

  predicate Conflict(rule: Rule) {
    (rule.max == Some(0) && rule.min > 0) || (rule.prohibited && rule.prefixLength < rule.min)
  }

  /**
   * A conflict is a demand that nothing can meet: fitting elements wanted and none allowed, or more of them wanted than
   * a prefix with nothing behind it can hold.
   */
  lemma ConflictMeans(rule: Rule, v: Value)
    requires rule.fits(v)
    ensures Conflict(rule) <==>
              || (rule.max == Some(0) && rule.min != 0)
              || (&& rule.prohibited
                  && forall items: seq<Value> | |items| <= rule.prefixLength :: CountFits(items, rule.fits) < rule.min)
  {
    var full := seq(rule.prefixLength, _ => v);
    AllFit(full, rule.fits);
    forall items: seq<Value> | |items| <= rule.prefixLength
      ensures CountFits(items, rule.fits) <= rule.prefixLength
    {
      PositionsCount(items, rule.fits, 0);
    }
    assert |full| <= rule.prefixLength;
  }

  /** What the walk of the `contains` schema yields, one value after another. */
  function Drawn(walk: nat -> Value, n: nat): (s: seq<Value>)
    ensures |s| == n
  {
    seq(n, k requires k >= 0 => walk(k))
  }

  /** The array after the repair. */
  function Repaired(rule: Rule, walk: nat -> Value, items: seq<Value>): seq<Value> {
    var count := CountFits(items, rule.fits);
    if Conflict(rule) then items
    else if count < rule.min then
      var misfits := |items| - count;
      var made := Drawn(walk, rule.min - count);
      if |made| <= misfits then Filled(items, rule.fits, made)
      else
        PositionsCount(items, rule.fits, 0);
        Filled(items, rule.fits, made[..misfits]) + made[misfits..]
    else if rule.max.Some? && count > rule.max.value then Dropped(items, rule.fits, 0, count - rule.max.value)
    else items
  }

  /** Walks take the places of misfits, as long as there are any. */
  method ReplaceMisfits(rule: Rule, walk: nat -> Value, result: Items, needed: nat) returns (produced: nat)
    modifies result
    ensures var misfits := |old(result.items)| - CountFits(old(result.items), rule.fits);
      && misfits >= 0 && produced == if needed <= misfits then needed else misfits
    ensures result.items == Filled(old(result.items), rule.fits, Drawn(walk, needed)[..produced])
  {
    ghost var before := result.items;
    ghost var made := Drawn(walk, needed);
    var at := FindPositions(result.items, rule.fits, false);
    PositionsCount(before, rule.fits, 0);
    produced := 0;
    assert Filled(before, rule.fits, made[..0]) == before;
    while produced < needed && produced < |at|
      invariant produced <= needed && produced <= |at|
      invariant result.items == Filled(before, rule.fits, made[..produced])
    {
      FilledMore(before, rule.fits, made[..produced], made[produced], 0);
      assert made[..produced] + [made[produced]] == made[..produced + 1];
      result.Put(at[produced], walk(produced));
      produced := produced + 1;
    }
  }

  method Fill(rule: Rule, walk: nat -> Value, result: Items, needed: nat)
    requires needed > 0
    modifies result
    ensures var old_ := old(result.items); var made := Drawn(walk, needed);
      var misfits := |old_| - CountFits(old_, rule.fits);
      && misfits >= 0
      && result.items == if needed <= misfits then Filled(old_, rule.fits, made)
                         else Filled(old_, rule.fits, made[..misfits]) + made[misfits..]
  {
    ghost var made := Drawn(walk, needed);
    var produced := ReplaceMisfits(rule, walk, result, needed);
    ghost var filled, start := result.items, produced;
    assert filled + made[start..start] == filled;
    while produced < needed
      invariant start <= produced <= needed
      invariant result.items == filled + made[start..produced]
    {
      assert made[start..produced] + [made[produced]] == made[start..produced + 1];
      result.Push(walk(produced));
      produced := produced + 1;
    }
    assert made[..needed] == made && made[start..needed] == made[start..];
  }

  method Trim(rule: Rule, result: Items, excess: nat)
    requires excess <= CountFits(result.items, rule.fits)
    modifies result
    ensures result.items == Dropped(old(result.items), rule.fits, 0, excess)
  {
    ghost var before := result.items;
    var at := FindPositions(result.items, rule.fits, true);
    PositionsCount(before, rule.fits, 0);
    var k: nat := excess;
    assert Dropped(before, rule.fits, excess, 0) == before;
    while k > 0
      invariant 0 <= k <= excess
      invariant result.items == Dropped(before, rule.fits, k, excess - k)
    {
      DroppedMore(before, rule.fits, k - 1, excess - k, 0);
      result.Remove(at[k - 1]);
      k := k - 1;
    }
  }

  /** `apply_contains_constraint`; an empty array has no misfits, so filling it is appending to it. */
  method ApplyContains(rule: Rule, walk: nat -> Value, result: Items, rng: Random)
    modifies result, rng
    ensures result.items == Repaired(rule, walk, old(result.items))
    ensures Conflict(rule) ==> rng.error.Some?
    ensures !Conflict(rule) ==> rng.error == old(rng.error)
  {
    if rule.max == Some(0) && rule.min > 0 {
      rng.SetError(InvalidArray(ContainsConflict));
      return;
    }
    if rule.prohibited && rule.prefixLength < rule.min {
      rng.SetError(InvalidArray(ContainsConflict));
      return;
    }
    ghost var before := result.items;
    var at := FindPositions(result.items, rule.fits, true);
    PositionsCount(before, rule.fits, 0);
    var count := |at|;
    if count < rule.min {
      Fill(rule, walk, result, rule.min - count);
    } else if rule.max.Some? && count > rule.max.value {
      Trim(rule, result, count - rule.max.value);
    }
  }

  /**
   * The repair is exact: unless the rule is in conflict, and when the walk yields fitting values, the number of
   * fitting elements ends up between the bounds. Repaired upward, the array has the larger of its old length and
   * the minimum, and what fitted stays in place; trimmed, it loses only surplus fitting elements.
   */
  lemma RepairIsExact(rule: Rule, walk: nat -> Value, items: seq<Value>)
    requires !Conflict(rule) && (rule.max.Some? ==> rule.min <= rule.max.value)
    requires forall k: nat :: rule.fits(walk(k))
    ensures var r := Repaired(rule, walk, items); var count := CountFits(items, rule.fits);
      && rule.min <= CountFits(r, rule.fits) && (rule.max.Some? ==> CountFits(r, rule.fits) <= rule.max.value)
      && (count < rule.min ==>
            && |r| == (if |items| < rule.min then rule.min else |items|)
            && forall i | 0 <= i < |items| && rule.fits(items[i]) :: r[i] == items[i])
      && (rule.min <= count ==> Misfits(r, rule.fits) == Misfits(items, rule.fits))
      && (rule.min <= count && (rule.max.Some? ==> count <= rule.max.value) ==> r == items)
  {
    var count := CountFits(items, rule.fits);
    if count < rule.min {
      RepairedUpward(rule, walk, items);
    } else if rule.max.Some? && count > rule.max.value {
      DroppedKeeps(items, rule.fits, count - rule.max.value);
    }
  }

  lemma RepairedUpward(rule: Rule, walk: nat -> Value, items: seq<Value>)
    requires !Conflict(rule) && CountFits(items, rule.fits) < rule.min
    requires forall k: nat :: rule.fits(walk(k))
    ensures var r := Repaired(rule, walk, items);
      && CountFits(r, rule.fits) == rule.min
      && |r| == (if |items| < rule.min then rule.min else |items|)
      && forall i | 0 <= i < |items| && rule.fits(items[i]) :: r[i] == items[i]
  {
    PositionsCount(items, rule.fits, 0);
    var misfits := |items| - CountFits(items, rule.fits);
    var made := Drawn(walk, rule.min - CountFits(items, rule.fits));
    var inPlace := if |made| <= misfits then made else made[..misfits];
    FilledKeeps(items, rule.fits, inPlace);
    if |made| > misfits {
      CountJoins(Filled(items, rule.fits, inPlace), made[misfits..], rule.fits);
      AllFit(made[misfits..], rule.fits);
    }
  }

  /** How long the repaired array is, whatever the walk yields. */
  lemma RepairedLength(rule: Rule, walk: nat -> Value, items: seq<Value>)
    ensures var count := CountFits(items, rule.fits);
            count <= |items| &&
            |Repaired(rule, walk, items)| ==
              if Conflict(rule) then |items|
              else if count < rule.min then (if |items| < rule.min then rule.min else |items|)
              else if rule.max.Some? && count > rule.max.value then |items| - (count - rule.max.value)
              else |items|
  {
    PositionsCount(items, rule.fits, 0);
    var count := CountFits(items, rule.fits);
    if rule.max.Some? && count > rule.max.value {
      DroppedKeeps(items, rule.fits, count - rule.max.value);
    }
  }

  /** A rule whose minimum lies above its maximum is not reported, and ends at the minimum or the maximum. */
  lemma CrossedBounds(rule: Rule, walk: nat -> Value, items: seq<Value>)
    requires !Conflict(rule) && rule.max.Some? && rule.max.value < rule.min
    requires forall k: nat :: rule.fits(walk(k))
    ensures CountFits(items, rule.fits) < rule.min ==> CountFits(Repaired(rule, walk, items), rule.fits) == rule.min
    ensures CountFits(items, rule.fits) >= rule.min ==>
              CountFits(Repaired(rule, walk, items), rule.fits) == rule.max.value
  {
    if CountFits(items, rule.fits) < rule.min {
      RepairIsExact(rule.(max := Some(rule.min)), walk, items);
    } else {
      DroppedKeeps(items, rule.fits, CountFits(items, rule.fits) - rule.max.value);
    }
  }
}
