/** The array generator: how many items it aims for, and what it ends up with. */
module ArrayGenerator {
  import opened Strings
  import opened Json
  import opened Randoms
  import opened Contains

  const MAX_GENERATED_ITEMS: nat := 65536
  const UNIQUE_ITEM_RETRY_BUDGET: nat := 100

  /** `items` and `additionalItems`: absent, `false`, a schema or `true`, or the array of a tuple. */
  datatype Extra = Absent | Prohibited | Permitted | Tuple(length: nat)

  datatype ArraySchema = ArraySchema(minItems: Option<nat>, maxItems: Option<nat>, prefixItems: Option<nat>,
                                     items: Extra, itemsDefault: bool, additionalItems: Extra, unique: bool,
                                     contains: Option<Rule>)
  {
    /** How many schemas the prefix has; `items` as an array stands in for `prefixItems`. */
    function Prefix(): Option<nat> {
      if prefixItems.Some? then prefixItems else if items.Tuple? then Some(items.length) else None
    }

    function PrefixLength(): nat {
      if Prefix().Some? then Prefix().value else 0
    }

    predicate ExtrasProhibited() {
      items.Prohibited? || additionalItems.Prohibited?
    }

    predicate ExtrasDescribed() {
      !ExtrasProhibited() && (items.Permitted? || additionalItems.Permitted?)
    }
  }

  datatype Options = Options(minItems: Option<nat>, maxItems: Option<nat>, alwaysOptionals: bool,
                             probability: Option<real>, useDefault: bool, maxDefaultItems: Option<nat>)

  function Min(a: nat, b: nat): nat {
    if a <= b then a else b
  }

  function Max(a: nat, b: nat): nat {
    if a <= b then b else a
  }

  function Capped(n: Option<nat>): Option<nat> {
    if n.Some? then Some(Min(n.value, MAX_GENERATED_ITEMS)) else None
  }

  function LowerBound(s: ArraySchema, o: Options): nat {
    var own := Capped(s.minItems);
    if o.minItems.Some? && own.Some? then Max(o.minItems.value, own.value)
    else if o.minItems.Some? then o.minItems.value
    else if own.Some? then own.value
    else 0
  }

  function UpperBound(s: ArraySchema, o: Options): nat {
    var own := Capped(s.maxItems);
    if o.maxItems.Some? && own.Some? then if own.value > 0 then Min(o.maxItems.value, own.value) else own.value
    else if o.maxItems.Some? then o.maxItems.value
    else if own.Some? then own.value
    else if s.PrefixLength() > 0 && !s.ExtrasDescribed() then s.PrefixLength()
    else if o.alwaysOptionals then Max(LowerBound(s, o), 3)
    else 3
  }

  function EffectiveMin(s: ArraySchema, o: Options): nat {
    Max(LowerBound(s, o), s.PrefixLength())
  }

  function SafeMax(s: ArraySchema, o: Options): nat {
    var raw := Max(UpperBound(s, o), EffectiveMin(s, o));
    if s.maxItems.Some? then Min(raw, Capped(s.maxItems).value) else raw
  }

  function SafeMin(s: ArraySchema, o: Options): nat {
    Min(EffectiveMin(s, o), SafeMax(s, o))
  }

  const EPSILON: real := 1.0 / 4503599627370496.0

  /** Rounds half away from zero. */
  function Round(x: real): nat
    requires x >= 0.0
  {
    (x + 0.5).Floor
  }

  /** The whole number next to the share `p` of the range, the higher one of two; and all of it next to one. */
  predicate IsShare(low: nat, high: nat, p: real, target: nat)
    requires low <= high
  {
    if 4503599627370496.0 * (1.0 - p) < 1.0 then target == high
    else -0.5 < (target - low) as real - (high - low) as real * p <= 0.5
  }

  /** A share of the range from `low` to `high`. */
  method Share(low: nat, high: nat, p: real) returns (target: nat)
    requires low <= high && 0.0 <= p <= 1.0
    ensures low <= target <= high && IsShare(low, high, p, target)
  {
    if p - 1.0 < EPSILON && 1.0 - p < EPSILON {
      target := high;
    } else if p <= 0.0 {
      target := low;
    } else {
      RoundedShare(high - low, p);
      target := low + Round((high - low) as real * p);
    }
  }

  /** The longest array when optional items are wanted, a share of the range by the probability, else any length. */
  predicate AimsFirst(s: ArraySchema, o: Options, target: nat) {
    var low, high := SafeMin(s, o), SafeMax(s, o);
    && low <= target <= high
    && (o.alwaysOptionals ==> target == high)
    && (!o.alwaysOptionals && o.probability.Some? ==> IsShare(low, high, o.probability.value, target))
  }

  /** What is above the limit is cut down to it, but not below the shortest array. */
  predicate LimitedTo(limit: nat, low: nat, first: nat, target: nat) {
    if first <= limit then target == first else limit <= target && low <= target && target in {limit, low}
  }

  predicate HasLimit(s: ArraySchema, o: Options) {
    o.useDefault && o.maxDefaultItems.Some? && s.items.Permitted? && s.itemsDefault
  }

  /** Items with a default are limited by the options. */
  predicate Aims(s: ArraySchema, o: Options, target: nat) {
    if HasLimit(s, o) then
      exists first | SafeMin(s, o) <= first <= SafeMax(s, o) ::
        AimsFirst(s, o, first) && LimitedTo(o.maxDefaultItems.value, SafeMin(s, o), first, target)
    else AimsFirst(s, o, target)
  }

  method FirstTarget(s: ArraySchema, o: Options, rng: Random) returns (target: nat)
    requires o.probability.Some? ==> 0.0 <= o.probability.value <= 1.0
    ensures AimsFirst(s, o, target)
  {
    var low, high := SafeMin(s, o), SafeMax(s, o);
    if o.alwaysOptionals {
      target := high;
    } else if o.probability.Some? {
      target := Share(low, high, o.probability.value);
    } else {
      target := rng.Int(low, high);
    }
  }

  lemma LimitAims(s: ArraySchema, o: Options, first: nat, target: nat)
    requires AimsFirst(s, o, first)
    requires if HasLimit(s, o) then target == Max(Min(first, o.maxDefaultItems.value), SafeMin(s, o))
             else target == first
    ensures SafeMin(s, o) <= target <= SafeMax(s, o) && Aims(s, o, target)
  {
    if HasLimit(s, o) {
      assert LimitedTo(o.maxDefaultItems.value, SafeMin(s, o), first, target);
    }
  }

  /** The number of items aimed for, drawn from the safe range when no probability is set. */
  method TargetCount(s: ArraySchema, o: Options, rng: Random) returns (target: nat)
    requires o.probability.Some? ==> 0.0 <= o.probability.value <= 1.0
    ensures SafeMin(s, o) <= target <= SafeMax(s, o) && Aims(s, o, target)
  {
    target := FirstTarget(s, o, rng);
    ghost var first := target;
    if o.useDefault && o.maxDefaultItems.Some? && s.items.Permitted? && s.itemsDefault {
      target := Max(Min(target, o.maxDefaultItems.value), SafeMin(s, o));
    }
    LimitAims(s, o, first, target);
  }

  lemma RoundedShare(n: nat, p: real)
    requires 0.0 <= p <= 1.0
    ensures 0.0 <= n as real * p <= n as real && Round(n as real * p) <= n
  {
    assert n as real * (1.0 - p) >= 0.0;
    assert n as real * p == n as real - n as real * (1.0 - p);
  }

  // ---- making the items ----

  predicate Distinct(items: seq<Value>) {
    forall i, j | 0 <= i < j < |items| :: items[i] != items[j]
  }

  /** How many items a schema without `contains` gets, before any complaint. */
  predicate Produced(s: ArraySchema, o: Options, target: nat, items: seq<Value>) {
    if s.Prefix().Some? then |items| == if s.ExtrasProhibited() then Min(s.PrefixLength(), target) else target
    else if s.unique then Distinct(items) && |items| <= target
    else |items| == target
  }

  /** The values among the first `n` walks, each once, where it first came. */
  function FirstsOf(walk: nat -> Value, n: nat): (vs: seq<Value>)
    ensures Distinct(vs) && |vs| <= n
    ensures forall v :: v in vs <==> exists k: nat | k < n :: walk(k) == v
  {
    if n == 0 then []
    else
      var earlier := FirstsOf(walk, n - 1);
      if walk(n - 1) in earlier then earlier else earlier + [walk(n - 1)]
  }

  /** The different values of as many walks as it takes, and of a hundred at most. */
  ghost predicate DistinctDraws(walk: nat -> Value, target: nat, items: seq<Value>) {
    exists n: nat | n <= 100 :: items == FirstsOf(walk, n) && (|items| == target || n == 100)
  }

  /** What the items are: one walk after another, or the different values of walks. */
  ghost predicate MadeFrom(s: ArraySchema, walk: nat -> Value, target: nat, items: seq<Value>) {
    if s.Prefix().None? && s.unique then DistinctDraws(walk, target, items) else items == Drawn(walk, |items|)
  }

  method MakePrefixed(s: ArraySchema, target: nat, walk: nat -> Value, result: Items)
    requires result.items == []
    modifies result
    ensures result.items == Drawn(walk, if s.ExtrasProhibited() then Min(s.PrefixLength(), target) else target)
  {
    var drawn := 0;
    while drawn < s.PrefixLength() && drawn < target
      invariant 0 <= drawn <= Min(s.PrefixLength(), target) && result.items == Drawn(walk, drawn)
    {
      result.Push(walk(drawn));
      drawn := drawn + 1;
    }
    if !s.ExtrasProhibited() {
      while |result.items| < target
        invariant 0 <= drawn <= target && result.items == Drawn(walk, drawn)
      {
        result.Push(walk(drawn));
        drawn := drawn + 1;
      }
    }
  }

  /** Draws until the array is full or a hundred walks are made. */
  method MakeUnique(target: nat, walk: nat -> Value, result: Items)
    requires result.items == []
    modifies result
    ensures |result.items| <= target && DistinctDraws(walk, target, result.items)
  {
    var drawn := 0;
    while |result.items| < target && drawn < UNIQUE_ITEM_RETRY_BUDGET
      invariant 0 <= drawn <= UNIQUE_ITEM_RETRY_BUDGET
      invariant |result.items| <= target && result.items == FirstsOf(walk, drawn)
      decreases UNIQUE_ITEM_RETRY_BUDGET - drawn
    {
      var v := walk(drawn);
      if v !in result.items {
        result.Push(v);
      }
      drawn := drawn + 1;
    }
  }

  /** The item source is arbitrary: the k-th walk of an item schema yields `walk(k)`. */
  method MakeItems(s: ArraySchema, o: Options, target: nat, walk: nat -> Value, result: Items, rng: Random)
    requires result.items == [] && SafeMin(s, o) <= target
    modifies result, rng
    ensures Produced(s, o, target, result.items) && MadeFrom(s, walk, target, result.items)
    ensures s.Prefix().None? && s.unique && |result.items| < SafeMin(s, o) ==> rng.error.Some?
    ensures !(s.Prefix().None? && s.unique && |result.items| < SafeMin(s, o)) ==> rng.error == old(rng.error)
  {
    if s.Prefix().Some? {
      MakePrefixed(s, target, walk, result);
    } else if s.unique {
      MakeUnique(target, walk, result);
      if |result.items| < SafeMin(s, o) {
        rng.SetError(InvalidArray(NotUnique));
      }
    } else {
      for i := 0 to target
        invariant result.items == Drawn(walk, i) && rng.error == old(rng.error)
      {
        result.Push(walk(i));
      }
    }
  }

  predicate OverCap(n: Option<nat>) {
    n.Some? && n.value > MAX_GENERATED_ITEMS
  }

  /** What is complained about once the array is made. */
  predicate Complained(s: ArraySchema, o: Options, target: nat, length: nat) {
    || (length < target && s.items.Prohibited? && s.PrefixLength() == 0)
    || (s.PrefixLength() > 0 && s.ExtrasProhibited() && EffectiveMin(s, o) > s.PrefixLength())
  }

  /** Whether the generator reports an array without `contains` as faulty. */
  predicate Reports(s: ArraySchema, o: Options, target: nat, made: seq<Value>) {
    || OverCap(s.minItems) || OverCap(s.maxItems)
    || (s.Prefix().None? && s.unique && |made| < SafeMin(s, o))
    || Complained(s, o, target, |made|)
  }

  method ReportCaps(s: ArraySchema, rng: Random)
    modifies rng
    ensures rng.error.Some? <==> old(rng.error).Some? || OverCap(s.minItems) || OverCap(s.maxItems)
  {
    if OverCap(s.minItems) {
      rng.SetError(InvalidArray(CappedLength));
    }
    if OverCap(s.maxItems) {
      rng.SetError(InvalidArray(CappedLength));
    }
  }

  method Complain(s: ArraySchema, o: Options, target: nat, length: nat, rng: Random)
    modifies rng
    ensures rng.error.Some? <==> old(rng.error).Some? || Complained(s, o, target, length)
  {
    if length < target && s.items.Prohibited? && s.PrefixLength() == 0 {
      rng.SetError(InvalidArray(ProhibitedItems));
    }
    if s.PrefixLength() > 0 && s.ExtrasProhibited() && EffectiveMin(s, o) > s.PrefixLength() {
      rng.SetError(InvalidArray(ProhibitedItems));
    }
  }

  method Generate(s: ArraySchema, o: Options, walk: nat -> Value, containsWalk: nat -> Value, rng: Random)
    returns (result: Items, ghost target: nat, ghost made: seq<Value>)
    requires o.probability.Some? ==> 0.0 <= o.probability.value <= 1.0
    modifies rng
    ensures fresh(result)
    ensures SafeMin(s, o) <= target <= SafeMax(s, o) && Produced(s, o, target, made)
    ensures Aims(s, o, target) && MadeFrom(s, walk, target, made)
    ensures result.items == if s.contains.Some? then Repaired(s.contains.value, containsWalk, made) else made
    ensures rng.error.Some? <==>
              || old(rng.error).Some? || OverCap(s.minItems) || OverCap(s.maxItems)
              || (s.Prefix().None? && s.unique && |made| < SafeMin(s, o))
              || (s.contains.Some? && Conflict(s.contains.value))
              || Complained(s, o, target, |result.items|)
    ensures s.contains.None? && old(rng.error).None? ==> (rng.error.Some? <==> Reports(s, o, target, result.items))
  {
    ReportCaps(s, rng);
    var goal := TargetCount(s, o, rng);
    target := goal;
    result := new Items([]);
    MakeItems(s, o, goal, walk, result, rng);
    made := result.items;
    if s.contains.Some? {
      ApplyContains(s.contains.value, containsWalk, result, rng);
    }
    Complain(s, o, goal, |result.items|, rng);
  }

  // ---- what the length comes to ----

  predicate LengthFits(s: ArraySchema, n: nat) {
    (s.minItems.Some? ==> s.minItems.value <= n) && (s.maxItems.Some? ==> n <= s.maxItems.value)
  }

  /** An empty prefix whose extras only `additionalItems` prohibits: nothing is made and nothing complained about. */
  predicate SilentlyEmpty(s: ArraySchema) {
    s.Prefix() == Some(0) && s.ExtrasProhibited() && !s.items.Prohibited?
  }

  lemma SafeRange(s: ArraySchema, o: Options)
    requires s.minItems.Some? && s.maxItems.Some? ==> s.minItems.value <= s.maxItems.value
    ensures s.minItems.Some? ==> Capped(s.minItems).value <= SafeMin(s, o)
    ensures s.maxItems.Some? ==> SafeMax(s, o) <= s.maxItems.value
  {}

  /**
   * The length guarantee: with consistent bounds, an array without `contains` has a length between them or is
   * reported, exactly unless something is demanded of an array that is silently left empty.
   */
  lemma LengthOrReport(s: ArraySchema, o: Options, target: nat, made: seq<Value>)
    requires s.contains.None?
    requires s.minItems.Some? && s.maxItems.Some? ==> s.minItems.value <= s.maxItems.value
    requires SafeMin(s, o) <= target <= SafeMax(s, o) && Produced(s, o, target, made)
    ensures LengthFits(s, |made|) || Reports(s, o, target, made) <==>
            !(SilentlyEmpty(s) && s.minItems.Some? && s.minItems.value > 0 && !OverCap(s.minItems)
              && !OverCap(s.maxItems))
  {
    SafeRange(s, o);
    if s.Prefix() == Some(0) && s.ExtrasProhibited() {
      EmptyPrefix(s, o, target, made);
    }
  }

  lemma EmptyPrefix(s: ArraySchema, o: Options, target: nat, made: seq<Value>)
    requires s.contains.None? && s.Prefix() == Some(0) && s.ExtrasProhibited()
    requires s.minItems.Some? && s.maxItems.Some? ==> s.minItems.value <= s.maxItems.value
    requires SafeMin(s, o) <= target <= SafeMax(s, o) && Produced(s, o, target, made)
    ensures made == []
    ensures Complained(s, o, target, 0) <==> target > 0 && s.items.Prohibited?
    ensures s.minItems.Some? && s.minItems.value > 0 && !OverCap(s.minItems) ==> target > 0
  {
    SafeRange(s, o);
  }

  /** As many items as the schema, the options and the prefix ask for; the schema for no more than 65536. */
  predicate EnoughFor(s: ArraySchema, o: Options, n: nat) {
    && (s.minItems.Some? ==> s.minItems.value <= n || 65536 <= n)
    && (o.minItems.Some? ==> o.minItems.value <= n)
    && (s.prefixItems.Some? ==> s.prefixItems.value <= n)
    && (s.prefixItems.None? && s.items.Tuple? ==> s.items.length <= n)
  }

  /** `false` stands for `items` or for `additionalItems`. */
  predicate Closed(s: ArraySchema) {
    s.items == Prohibited || s.additionalItems == Prohibited
  }

  /** Or else a schema stands for one of them. */
  predicate Open(s: ArraySchema) {
    !Closed(s) && (s.items == Permitted || s.additionalItems == Permitted)
  }

  /** An array with a prefix has the length aimed for, but stays within a closed one. */
  lemma PrefixedLength(s: ArraySchema, o: Options, target: nat, items: seq<Value>, prefix: nat)
    requires Produced(s, o, target, items)
    requires s.prefixItems == Some(prefix) || (s.prefixItems.None? && s.items == Tuple(prefix))
    ensures if Closed(s) && prefix < target then |items| == prefix else |items| == target
  {
  }

  ghost predicate LeastEnough(s: ArraySchema, o: Options, n: nat) {
    EnoughFor(s, o, n) && forall m: nat | EnoughFor(s, o, m) :: n <= m
  }

  /**
   * The safe range: from the least length that is enough, to the maximum of the schema, but for no more than 65536 and,
   * where that is more than enough, for no more than the maximum of the options. Without any maximum the prefix is
   * enough where nothing describes further items, and three items are where something does.
   */
  lemma SafeRangeIs(s: ArraySchema, o: Options, least: nat)
    requires LeastEnough(s, o, least)
    ensures var low, high := SafeMin(s, o), SafeMax(s, o);
            && (if least <= high then low == least else low == high)
            && (s.maxItems.Some? ==> high <= s.maxItems.value && high <= 65536)
            && (s.maxItems.Some? && o.maxItems.None? ==> high in {s.maxItems.value, 65536})
            && (s.maxItems.Some? && o.maxItems.Some? ==>
                  if high < s.maxItems.value && high < 65536 then
                    && least <= high && o.maxItems.value <= high && high in {least, o.maxItems.value}
                  else high in {s.maxItems.value, 65536} && (high <= least || high <= o.maxItems.value))
            && (s.maxItems.None? && o.maxItems.Some? ==>
                  least <= high && o.maxItems.value <= high && high in {least, o.maxItems.value})
            && (s.maxItems.None? && o.maxItems.None? && s.PrefixLength() > 0 && !Open(s) ==> high == least)
            && (s.maxItems.None? && o.maxItems.None? && (s.PrefixLength() == 0 || Open(s)) ==>
                  least <= high && 3 <= high && high in {least, 3})
  {
    assert EnoughFor(s, o, EffectiveMin(s, o));
    assert least == EffectiveMin(s, o);
  }

  // ---- what `contains` makes of the length ----

  /** Whether anything is reported of the array made, repaired to `length` for `contains`. */
  predicate ReportsRepaired(s: ArraySchema, o: Options, target: nat, made: seq<Value>, length: nat)
    requires s.contains.Some?
  {
    || OverCap(s.minItems) || OverCap(s.maxItems)
    || (s.Prefix().None? && s.unique && |made| < SafeMin(s, o))
    || Conflict(s.contains.value)
    || Complained(s, o, target, length)
  }

  /**
   * The repair for `contains` knows nothing of `maxItems`. The array ends up too long exactly when too few elements fit
   * and more than `maxItems` are asked for; and then nothing is reported unless a bound was capped, unique items ran
   * short, or more is demanded than a prefix whose extras are prohibited can hold.
   */
  lemma RepairOutgrows(s: ArraySchema, o: Options, target: nat, made: seq<Value>, walk: nat -> Value)
    requires s.contains.Some? && s.maxItems.Some? && (s.minItems.Some? ==> s.minItems.value <= s.maxItems.value)
    requires SafeMin(s, o) <= target <= SafeMax(s, o) && Produced(s, o, target, made)
    ensures var rule := s.contains.value; var n := |Repaired(rule, walk, made)|;
            && (n > s.maxItems.value <==>
                  !Conflict(rule) && CountFits(made, rule.fits) < rule.min && s.maxItems.value < rule.min)
            && (n > s.maxItems.value ==>
                  (ReportsRepaired(s, o, target, made, n) <==>
                     || OverCap(s.minItems) || OverCap(s.maxItems)
                     || (s.Prefix().None? && s.unique && |made| < SafeMin(s, o))
                     || (s.PrefixLength() > 0 && s.ExtrasProhibited() && EffectiveMin(s, o) > s.PrefixLength())))
  {
    SafeRange(s, o);
    RepairedLength(s.contains.value, walk, made);
  }

  /** Nor of `minItems`: an array long enough ends up too short exactly when trimming takes more than it can spare. */
  lemma TrimUndercuts(s: ArraySchema, o: Options, made: seq<Value>, walk: nat -> Value)
    requires s.contains.Some? && s.minItems.Some? && s.minItems.value <= |made|
    ensures var rule := s.contains.value; var count := CountFits(made, rule.fits);
            |Repaired(rule, walk, made)| < s.minItems.value <==>
              && !Conflict(rule) && rule.min <= count && rule.max.Some? && rule.max.value < count
              && |made| - (count - rule.max.value) < s.minItems.value
  {
    RepairedLength(s.contains.value, walk, made);
  }
}
