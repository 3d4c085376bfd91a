/** Multiples of an integer in a range, under a remainder that truncates toward zero. */
module Multiples {
  import opened Randoms

  const I64_MIN: int := -0x8000_0000_0000_0000
  const I64_MAX: int := 0x7FFF_FFFF_FFFF_FFFF

  /** Machine integers: every intermediate result below is shown to fit. */
  newtype i64 = x: int | -0x8000_0000_0000_0000 <= x <= 0x7FFF_FFFF_FFFF_FFFF

  /** `n % m` as the source computes it: the remainder has the sign of `n`. */
  function Remainder(n: int, m: int): int
    requires m > 0
  {
    if n >= 0 then n % m else -((-n) % m)
  }

  predicate IsMultiple(x: int, m: int)
    requires m > 0
  {
    x % m == 0
  }

  /** The least multiple of `m` that is not below `n`. */
  ghost predicate LeastAbove(x: int, n: int, m: int)
    requires m > 0
  {
    IsMultiple(x, m) && n <= x && forall y | IsMultiple(y, m) && n <= y :: x <= y
  }

  ghost predicate GreatestBelow(x: int, n: int, m: int)
    requires m > 0
  {
    IsMultiple(x, m) && x <= n && forall y | IsMultiple(y, m) && y <= n :: y <= x
  }

  lemma Divides(x: int, m: int) returns (k: int)
    requires m > 0 && IsMultiple(x, m)
    ensures x == k * m
  {
    k := x / m;
  }

  lemma Multiple(k: int, m: int)
    requires m > 0
    ensures IsMultiple(k * m, m)
  {
    var q, r := (k * m) / m, (k * m) % m;
    assert k * m == q * m + r;
    assert (k - q) * m == r;
    if k - q >= 1 {
      Grows(k - q, 1, m);
    } else if k - q <= -1 {
      Grows(-1, k - q, m);
    }
  }

  lemma Grows(a: int, b: int, m: int)
    requires a >= b && m > 0
    ensures a * m >= b * m
  {}

  lemma GrowsStrictly(a: int, b: int, m: int)
    requires a > b && m > 0
    ensures a * m > b * m
  {
    Grows(a, b + 1, m);
    assert (b + 1) * m == b * m + m;
  }

  /** Two multiples closer than `m` are the same. */
  lemma Apart(x: int, y: int, m: int)
    requires m > 0 && IsMultiple(x, m) && IsMultiple(y, m) && x < y
    ensures y >= x + m
  {
    var j := Divides(x, m);
    var k := Divides(y, m);
    if k <= j {
      Grows(j, k, m);
    } else {
      Grows(k, j + 1, m);
      assert (j + 1) * m == j * m + m;
    }
  }

  lemma MultiplesAround(n: int, m: int)
    requires m > 0
    ensures IsMultiple(n - Remainder(n, m), m)
    ensures IsMultiple(n - Remainder(n, m) + m, m)
    ensures IsMultiple(n - Remainder(n, m) - m, m)
    ensures n >= 0 ==> 0 <= Remainder(n, m) < m
    ensures n < 0 ==> -m < Remainder(n, m) <= 0
  {
    var k := Quotient(n, m);
    Multiple(k, m);
    Multiple(k + 1, m);
    Multiple(k - 1, m);
    Neighbours(k, m);
  }

  /** Truncating division leaves the remainder. */
  lemma Quotient(n: int, m: int) returns (k: int)
    requires m > 0
    ensures n - Remainder(n, m) == k * m
  {
    if n >= 0 {
      k := n / m;
    } else {
      k := -((-n) / m);
      assert -n == (-n) / m * m + (-n) % m;
    }
  }

  lemma Neighbours(k: int, m: int)
    ensures (k + 1) * m == k * m + m && (k - 1) * m == k * m - m
  {}

  function CeilMultiple(n: int, m: int): int
    requires m > 0
  {
    var r := Remainder(n, m);
    if r == 0 then n else if n >= 0 then n + (m - r) else n - r
  }

  function FloorMultiple(n: int, m: int): int
    requires m > 0
  {
    var r := Remainder(n, m);
    if r == 0 then n else if n >= 0 then n - r else n - (m + r)
  }

  /** Both signs: the ceiling is the least multiple not below, the floor the greatest not above. */
  lemma CeilIsLeast(n: int, m: int)
    requires m > 0
    ensures LeastAbove(CeilMultiple(n, m), n, m)
  {
    MultiplesAround(n, m);
    var x := CeilMultiple(n, m);
    forall y | IsMultiple(y, m) && n <= y
      ensures x <= y
    {
      if y < x {
        Apart(y, x, m);
      }
    }
  }

  lemma FloorIsGreatest(n: int, m: int)
    requires m > 0
    ensures GreatestBelow(FloorMultiple(n, m), n, m)
  {
    MultiplesAround(n, m);
    var x := FloorMultiple(n, m);
    forall y | IsMultiple(y, m) && y <= n
      ensures y <= x
    {
      if x < y {
        Apart(x, y, m);
      }
    }
  }

  /** `ceil_multiple_i64`: it overflows exactly when the multiple asked for is no machine integer. */
  method CeilMultipleI64(n: i64, m: i64) returns (x: i64)
    requires m >= 0 && (m > 0 ==> CeilMultiple(n as int, m as int) <= I64_MAX)
    ensures if m == 0 then x == n else LeastAbove(x as int, n as int, m as int)
  {
    if m == 0 {
      return n;
    }
    CeilIsLeast(n as int, m as int);
    MultiplesAround(n as int, m as int);
    var r := Remainder(n as int, m as int) as i64;
    if r == 0 {
      x := n;
    } else if n >= 0 {
      x := n + (m - r);
    } else {
      x := n - r;
    }
  }

  /** `floor_multiple_i64`. */
  method FloorMultipleI64(n: i64, m: i64) returns (x: i64)
    requires m >= 0 && (m > 0 ==> I64_MIN <= FloorMultiple(n as int, m as int))
    ensures if m == 0 then x == n else GreatestBelow(x as int, n as int, m as int)
  {
    if m == 0 {
      return n;
    }
    FloorIsGreatest(n as int, m as int);
    MultiplesAround(n as int, m as int);
    var r := Remainder(n as int, m as int) as i64;
    if r == 0 {
      x := n;
    } else if n >= 0 {
      x := n - r;
    } else {
      x := n - (m + r);
    }
  }

  const LIMIT: int := 0x2000_0000_0000_0000

  predicate Moderate(n: int) {
    -LIMIT <= n <= LIMIT
  }

  lemma ModerateFits(n: int, m: int)
    requires Moderate(n) && 0 < m <= LIMIT
    ensures -2 * LIMIT <= CeilMultiple(n, m) <= 2 * LIMIT
    ensures -2 * LIMIT <= FloorMultiple(n, m) <= 2 * LIMIT
  {
    MultiplesAround(n, m);
  }

  ghost predicate HasMultiple(min: int, max: int, m: int)
    requires m > 0
  {
    exists x :: IsMultiple(x, m) && min <= x <= max
  }

  /** How many steps of `m` lie between the first and the last multiple of the range. */
  function Steps(min: int, max: int, m: int): int
    requires m > 0
  {
    (FloorMultiple(max, m) - CeilMultiple(min, m)) / m
  }

  /** What the draw `chosen` comes to. */
  function Chosen(min: int, m: int, chosen: int): int
    requires m > 0
  {
    CeilMultiple(min, m) + chosen * m
  }

  /** Every draw is a multiple in range, and every multiple in range is a draw. */
  lemma DrawsAreMultiples(min: int, max: int, m: int, x: int)
    requires m > 0
    ensures IsMultiple(x, m) && min <= x <= max <==>
            exists chosen :: 0 <= chosen <= Steps(min, max, m) && CeilMultiple(min, m) <= FloorMultiple(max, m) &&
                             x == Chosen(min, m, chosen)
  {
    CeilIsLeast(min, m);
    FloorIsGreatest(max, m);
    var first, last := CeilMultiple(min, m), FloorMultiple(max, m);
    var a := Divides(first, m);
    var b := Divides(last, m);
    if first <= last {
      StepsBetween(a, b, m);
    }
    if IsMultiple(x, m) && min <= x <= max {
      var k := Divides(x, m);
      assert first <= x <= last;
      Between(a, k, m);
      Between(k, b, m);
      assert x == Chosen(min, m, k - a) by {
        assert (k - a) * m == k * m - a * m;
      }
    }
    forall chosen | 0 <= chosen <= Steps(min, max, m) && first <= last && x == Chosen(min, m, chosen)
      ensures IsMultiple(x, m) && min <= x <= max
    {
      assert (a + chosen) * m == a * m + chosen * m;
      Multiple(a + chosen, m);
      Grows(chosen, 0, m);
      Grows(b, a + chosen, m);
    }
  }

  lemma Between(a: int, k: int, m: int)
    requires m > 0 && a * m <= k * m
    ensures a <= k
  {
    if k < a {
      GrowsStrictly(a, k, m);
    }
  }

  lemma StepsBetween(a: int, b: int, m: int)
    requires m > 0 && a * m <= b * m
    ensures (b * m - a * m) / m == b - a && a <= b
  {
    Between(a, b, m);
    assert b * m - a * m == (b - a) * m;
    Multiple(b - a, m);
    var q := ((b - a) * m) / m;
    assert (b - a) * m == q * m;
    Between(b - a, q, m);
    Between(q, b - a, m);
  }

  /** A range without multiples lies strictly between two neighbouring ones. */
  lemma NoMultiple(min: int, max: int, m: int)
    requires m > 0
    ensures HasMultiple(min, max, m) <==> CeilMultiple(min, m) <= FloorMultiple(max, m)
    ensures HasMultiple(min, max, m) <==> CeilMultiple(min, m) <= max
  {
    CeilIsLeast(min, m);
    FloorIsGreatest(max, m);
  }

  lemma AtLeastItself(chosen: int, m: int)
    requires chosen >= 0 && m > 0
    ensures chosen <= chosen * m
  {
    Grows(m, 1, 1);
    assert chosen * (m - 1) >= 0;
    assert chosen * m == chosen * (m - 1) + chosen;
  }

  lemma DrawnFits(min: int, max: int, m: int, chosen: int)
    requires m > 0 && 0 <= chosen <= Steps(min, max, m) && CeilMultiple(min, m) <= FloorMultiple(max, m)
    ensures IsMultiple(Chosen(min, m, chosen), m) && min <= Chosen(min, m, chosen) <= max
    ensures chosen <= chosen * m <= max - CeilMultiple(min, m)
  {
    var x := Chosen(min, m, chosen);
    DrawsAreMultiples(min, max, m, x);
    AtLeastItself(chosen, m);
  }

  lemma OneLeast(x: int, y: int, n: int, m: int)
    requires m > 0 && LeastAbove(x, n, m) && LeastAbove(y, n, m)
    ensures x == y
  {}

  lemma OneGreatest(x: int, y: int, n: int, m: int)
    requires m > 0 && GreatestBelow(x, n, m) && GreatestBelow(y, n, m)
    ensures x == y
  {}

  /** The first and the last multiple of a range of moderate numbers. */
  method Ends(min: i64, max: i64, m: i64) returns (first: i64, last: i64)
    requires Moderate(min as int) && Moderate(max as int) && 0 < m as int <= LIMIT
    ensures first as int == CeilMultiple(min as int, m as int) <= 2 * LIMIT && -2 * LIMIT <= first as int
    ensures last as int == FloorMultiple(max as int, m as int) <= 2 * LIMIT && -2 * LIMIT <= last as int
  {
    ModerateFits(min as int, m as int);
    ModerateFits(max as int, m as int);
    CeilIsLeast(min as int, m as int);
    FloorIsGreatest(max as int, m as int);
    first := CeilMultipleI64(min, m);
    last := FloorMultipleI64(max, m);
    OneLeast(first as int, CeilMultiple(min as int, m as int), min as int, m as int);
    OneGreatest(last as int, FloorMultiple(max as int, m as int), max as int, m as int);
  }

  /**
   * The integer path: when the range holds a multiple, the result is one in range; when it holds none, the
   * result is the least multiple above the minimum, which is beyond the maximum.
   */
  method DrawMultiple(min: i64, max: i64, m: i64, rng: Random) returns (x: i64)
    requires Moderate(min as int) && Moderate(max as int) && 0 < m as int <= LIMIT
    ensures IsMultiple(x as int, m as int) && min <= x
    ensures x <= max <==> HasMultiple(min as int, max as int, m as int)
    ensures x > max ==> x as int == CeilMultiple(min as int, m as int)
  {
    var first, last := Ends(min, max, m);
    NoMultiple(min as int, max as int, m as int);
    CeilIsLeast(min as int, m as int);
    if first > last {
      return first;
    }
    var count := (last - first) / m;
    StepsFit(min as int, max as int, m as int);
    var chosen := rng.Int(0, count as int);
    DrawnFits(min as int, max as int, m as int, chosen);
    x := first + (chosen as i64) * m;
  }

  lemma StepsFit(min: int, max: int, m: int)
    requires m > 0 && CeilMultiple(min, m) <= FloorMultiple(max, m)
    ensures Steps(min, max, m) >= 0
  {
    var d := FloorMultiple(max, m) - CeilMultiple(min, m);
    assert d == d / m * m + d % m;
    if d / m < 0 {
      Grows(-1, d / m, m);
    }
  }
}
