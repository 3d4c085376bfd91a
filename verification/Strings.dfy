/** The string primitives the source takes from its standard library. */
module Strings {

  datatype Option<+T> = None | Some(value: T)

  predicate StartsWith(s: string, p: string) {
    p <= s
  }

  predicate EndsWith(s: string, p: string) {
    |p| <= |s| && s[|s| - |p|..] == p
  }

  function Upper(c: char): char {
    if 'a' <= c <= 'z' then (c as int - 32) as char else c
  }

  /** `to_ascii_uppercase`. */
  function ToUpper(s: string): string {
    seq(|s|, i requires 0 <= i < |s| => Upper(s[i]))
  }

  /** The same character, or the same ASCII letter in the other case. */
  predicate SameLetter(a: char, b: char) {
    || a == b
    || ('A' <= a <= 'Z' && b as int == a as int + 32)
    || ('A' <= b <= 'Z' && a as int == b as int + 32)
  }

  predicate SameName(a: string, b: string) {
    |a| == |b| && forall i | 0 <= i < |a| :: SameLetter(a[i], b[i])
  }

  lemma UpperIs(a: char, b: char)
    ensures Upper(a) == Upper(b) <==> SameLetter(a, b)
    ensures !('a' <= Upper(a) <= 'z') && SameLetter(a, Upper(a))
  {
  }

  /** The upper-case form is the same name without lower-case letters, and names that are the same share it. */
  lemma ToUpperIs(a: string, b: string)
    ensures SameName(a, ToUpper(a)) && forall i | 0 <= i < |a| :: !('a' <= ToUpper(a)[i] <= 'z')
    ensures ToUpper(a) == ToUpper(b) <==> SameName(a, b)
  {
    forall i | 0 <= i < |a|
      ensures !('a' <= ToUpper(a)[i] <= 'z') && SameLetter(a[i], ToUpper(a)[i])
      ensures i < |b| ==> (ToUpper(a)[i] == ToUpper(b)[i] <==> SameLetter(a[i], b[i]))
    {
      UpperIs(a[i], if i < |b| then b[i] else a[i]);
    }
    if SameName(a, b) {
      assert ToUpper(a) == ToUpper(b);
    }
    if ToUpper(a) == ToUpper(b) {
      assert |a| == |ToUpper(a)| == |b|;
    }
  }

  // ---- white space ----

  predicate IsSpace(c: char) {
    c == ' ' || '\t' <= c <= '\r'
  }

  function TrimStart(s: string): string {
    if s != "" && IsSpace(s[0]) then TrimStart(s[1..]) else s
  }

  function TrimEnd(s: string): string {
    if s != "" && IsSpace(s[|s| - 1]) then TrimEnd(s[..|s| - 1]) else s
  }

  function Trim(s: string): string {
    TrimEnd(TrimStart(s))
  }

  // ---- splitting and joining ----

  function Split(s: string, sep: char): (parts: seq<string>)
    ensures parts != []
    ensures forall p | p in parts :: sep !in p
  {
    if s == [] then [""]
    else
      var rest := Split(s[1..], sep);
      if s[0] == sep then [""] + rest else [[s[0]] + rest[0]] + rest[1..]
  }

  function Join(parts: seq<string>, sep: char): string {
    if parts == [] then ""
    else if |parts| == 1 then parts[0]
    else parts[0] + [sep] + Join(parts[1..], sep)
  }

  function Count(s: string, c: char): nat {
    if s == [] then 0 else (if s[0] == c then 1 else 0) + Count(s[1..], c)
  }

  lemma {:induction false} SplitLength(s: string, sep: char)
    ensures |Split(s, sep)| == Count(s, sep) + 1
  {
    if s != [] {
      SplitLength(s[1..], sep);
    }
  }

  lemma {:induction false} JoinSplit(s: string, sep: char)
    ensures Join(Split(s, sep), sep) == s
  {
    if s != [] {
      JoinSplit(s[1..], sep);
      var rest := Split(s[1..], sep);
      if s[0] == sep {
        assert ([""] + rest)[1..] == rest;
        assert s == [s[0]] + s[1..];
      } else {
        var parts := [[s[0]] + rest[0]] + rest[1..];
        assert parts[1..] == rest[1..];
        assert s == [s[0]] + s[1..];
      }
    }
  }

  lemma {:induction false} SplitPlain(s: string, sep: char)
    requires sep !in s
    ensures Split(s, sep) == [s]
  {
    if s != [] {
      SplitPlain(s[1..], sep);
      assert [s[0]] + s[1..] == s;
    }
  }

  lemma {:induction false} SplitFirst(p: string, rest: string, sep: char)
    requires sep !in p
    ensures Split(p + [sep] + rest, sep) == [p] + Split(rest, sep)
  {
    var s := p + [sep] + rest;
    if p == [] {
      assert s == [sep] + rest;
      assert s[1..] == rest;
    } else {
      SplitFirst(p[1..], rest, sep);
      assert s[1..] == p[1..] + [sep] + rest;
      assert [p[0]] + p[1..] == p;
    }
  }

  lemma {:induction false} SplitJoin(parts: seq<string>, sep: char)
    requires parts != [] && forall p | p in parts :: sep !in p
    ensures Split(Join(parts, sep), sep) == parts
  {
    if |parts| == 1 {
      SplitPlain(parts[0], sep);
    } else {
      SplitJoin(parts[1..], sep);
      SplitFirst(parts[0], Join(parts[1..], sep), sep);
    }
  }

  // ---- searching ----

  /** `s.find(p)`: where `p` first occurs. */
  function Find(s: string, p: string): (r: Option<nat>)
    ensures r.Some? ==> r.value + |p| <= |s| && s[r.value..r.value + |p|] == p
    ensures r.Some? ==> forall j | 0 <= j < r.value :: !(p <= s[j..])
    ensures r.None? ==> forall j | 0 <= j <= |s| :: !(p <= s[j..])
  {
    if p <= s then Some(0)
    else if s == [] then None
    else
      var t := Find(s[1..], p);
      assert forall j | 1 <= j <= |s| :: s[j..] == s[1..][j - 1..];
      if t.Some? then
        assert s[1..][t.value..t.value + |p|] == s[t.value + 1..t.value + 1 + |p|];
        Some(t.value + 1)
      else
        None
  }

  function Later(r: Option<nat>, n: nat): Option<nat> {
    if r.Some? then Some(r.value + n) else None
  }

  lemma StartsWithChar(s: string, c: char)
    ensures [c] <= s <==> s != "" && s[0] == c
  {
    assert [c][0] == c;
  }

  lemma {:induction false} FoundAt(s: string, c: char, k: nat)
    requires k < |s| && s[k] == c && c !in s[..k]
    ensures Find(s, [c]) == Some(k)
  {
    StartsWithChar(s, c);
    if 0 < k {
      assert s[..k][0] == s[0] && s[1..][..k - 1] == s[..k][1..];
      FoundAt(s[1..], c, k - 1);
    }
  }

  lemma {:induction false} NotFound(s: string, c: char)
    requires c !in s
    ensures Find(s, [c]) == None
  {
    if s != "" {
      NotFound(s[1..], c);
      assert [c][0] == c && s[0] in s;
    }
  }

  /** `s.find(c)` for a single character. */
  function IndexOfChar(s: string, c: char): (r: Option<nat>)
    ensures r.Some? ==> r.value < |s| && s[r.value] == c && c !in s[..r.value]
    ensures r.None? ==> c !in s
  {
    if s == [] then None
    else if s[0] == c then Some(0)
    else
      var t := IndexOfChar(s[1..], c);
      assert s == [s[0]] + s[1..];
      if t.Some? then
        assert s[..t.value + 1] == [s[0]] + s[1..][..t.value];
        Some(t.value + 1)
      else None
  }

  // ---- decimal numerals ----

  predicate IsDigit(c: char) {
    '0' <= c <= '9'
  }

  function Decimal(n: nat): (s: string)
    ensures s != [] && forall c | c in s :: IsDigit(c)
  {
    if n < 10 then [(n + 48) as char] else Decimal(n / 10) + [(n % 10 + 48) as char]
  }

  function DigitsValue(s: string): nat
    requires forall c | c in s :: IsDigit(c)
  {
    if s == [] then 0
    else
      assert IsDigit(s[|s| - 1]);
      10 * DigitsValue(s[..|s| - 1]) + (s[|s| - 1] as int - 48)
  }

  const USIZE_MAX: nat := 0xFFFF_FFFF_FFFF_FFFF

  /** `str::parse::<usize>`: an optional plus sign, at least one digit, no overflow. */
  function ParseUsize(s: string): Option<nat> {
    var digits := if s != [] && s[0] == '+' then s[1..] else s;
    if digits != [] && (forall c | c in digits :: IsDigit(c)) && DigitsValue(digits) <= USIZE_MAX
    then Some(DigitsValue(digits))
    else None
  }

  /** Digits, with or without a plus sign before them. */
  predicate Numeral(s: string, digits: string) {
    (s == digits || s == "+" + digits) && digits != "" && forall c | c in digits :: IsDigit(c)
  }

  /** A numeral is read as the value of its digits, leading zeros too, if a machine word holds it; nothing else is. */
  lemma ParseUsizeIs(s: string, n: nat)
    ensures ParseUsize(s) == Some(n) <==>
              exists digits :: Numeral(s, digits) && DigitsValue(digits) == n && n <= 0xFFFF_FFFF_FFFF_FFFF
  {
    var digits := if s != [] && s[0] == '+' then s[1..] else s;
    if s != [] && s[0] == '+' {
      assert s == "+" + digits;
    }
    forall other | Numeral(s, other)
      ensures other == digits
    {
      if s == "+" + other {
        assert s[0] == '+' && s[1..] == other;
      } else {
        assert other[0] in other;
      }
    }
    if digits != "" && forall c | c in digits :: IsDigit(c) {
      assert Numeral(s, digits);
    }
  }

  lemma {:induction false} DecimalValue(n: nat)
    ensures DigitsValue(Decimal(n)) == n
  {
    if n < 10 {
      assert Decimal(n)[..0] == "";
    } else {
      DecimalValue(n / 10);
      var s := Decimal(n);
      assert s[..|s| - 1] == Decimal(n / 10);
    }
  }

  lemma ParseDecimal(n: nat)
    requires n <= USIZE_MAX
    ensures ParseUsize(Decimal(n)) == Some(n)
  {
    DecimalValue(n);
    assert Decimal(n)[0] in Decimal(n);
  }
}
