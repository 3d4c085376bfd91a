/**
 * What the hand-written pattern generator reads off the text of a pattern, and the set of all
 * strings it may emit for it.
 */
module PatternText {
  import opened Strings

  const MAX_REGEX_REPEAT: nat := 1024

  // ---- alphabets ----

  predicate Within(lo: char, c: char, hi: char) {
    lo <= c <= hi
  }

  function Span(lo: char, hi: char): set<char> {
    set c: char | Within(lo, c, hi)
  }

  function Lower(): set<char> {
    Span('a', 'z')
  }

  function Digits(): set<char> {
    Span('0', '9')
  }

  function Alphanumeric(): set<char> {
    Span('a', 'z') + Span('A', 'Z') + Span('0', '9')
  }

  function Word(): set<char> {
    Alphanumeric() + {'_'}
  }

  function Punctuation(): set<char> {
    set c | c in "!@#$%^&*()-=+[]{}|;':\",./<>?"
  }

  // ---- the scanners ----

  /** How far into `p` the parenthesis closes that leaves `depth` open ones behind. */
  function Close(p: string, depth: nat): (r: Option<nat>)
    requires depth > 0
    ensures r.Some? ==> r.value < |p| && p[r.value] == ')'
  {
    if p == "" then None
    else if p[0] == ')' && depth == 1 then Some(0)
    else Later(Close(p[1..], Deeper(p[0], depth)), 1)
  }

  /** Where the group that opens `p` ends; an unclosed one is taken to end with the text. */
  function GroupEnd(p: string): (end: nat)
    requires p != "" && p[0] == '('
    ensures end < |p|
  {
    match Close(p[1..], 1)
    case Some(k) => k + 1
    case None => |p| - 1
  }

  lemma GroupEndIs(p: string, r: Option<nat>)
    requires p != "" && p[0] == '(' && Close(p[1..], 1) == r
    ensures GroupEnd(p) == if r.Some? then r.value + 1 else |p| - 1
  {}

  lemma OpenTail(inner: string, rest: string)
    ensures var p := "(" + inner + ")" + rest; p[0] == '(' && p[1..] == inner + (")" + rest)
  {}

  lemma GroupSlices(inner: string, rest: string)
    ensures var p := "(" + inner + ")" + rest; p[1..|inner| + 1] == inner && p[|inner| + 2..] == rest
  {}

  lemma BracketSlices(inner: string, rest: string)
    ensures var p := "[" + inner + "]" + rest; p[1..][..|inner|] == inner && p[1..][|inner|] == ']'
  {}

  lemma RestIs(p: string, w: nat, rest: string)
    requires p != "" && AtomWidth(p) == w && p[w..] == rest && Quantifier(rest) == Quantity(1, 1, 0, false)
    ensures Rest(p) == rest && AtomQuantity(p) == Quantity(1, 1, 0, false)
  {}

  function ClassEnd(p: string): (end: nat)
    requires p != "" && p[0] == '['
    ensures end < |p|
  {
    match Find(p[1..], "]")
    case Some(k) => k + 1
    case None => |p| - 1
  }

  function Deeper(c: char, depth: int): int {
    if c == '(' then depth + 1 else if c == ')' then depth - 1 else depth
  }

  /** The alternatives of a group, split at the pipes outside inner groups. */
  function Alternatives(p: string, depth: int): (alts: seq<string>)
    ensures alts != []
  {
    if p == "" then [""]
    else if p[0] == '|' && depth == 0 then [""] + Alternatives(p[1..], depth)
    else
      Prepended([p[0]], Alternatives(p[1..], Deeper(p[0], depth)))
  }

  predicate NoLonger(alts: seq<string>, n: nat) {
    forall k | 0 <= k < |alts| :: |alts[k]| <= n
  }

  lemma {:induction false} AlternativesFit(p: string, depth: int)
    ensures NoLonger(Alternatives(p, depth), |p|)
  {
    if p != "" {
      AlternativesFit(p[1..], Deeper(p[0], depth));
    }
  }

  function Prepended(text: string, alts: seq<string>): (r: seq<string>)
    requires alts != []
  {
    [text + alts[0]] + alts[1..]
  }

  // ---- character classes ----

  function EscapeMembers(c: char): set<char> {
    if c == 'd' then Digits()
    else if c == 'w' then Word()
    else if c == 's' then {' '}
    else {c}
  }

  /** The characters a class lists. */
  function Members(t: string): set<char>
    decreases |t|
  {
    if t == "" then {}
    else if |t| > 2 && t[1] == '-' then Span(t[0], t[2]) + Members(t[3..])
    else if t[0] == '\\' && |t| > 1 then EscapeMembers(t[1]) + Members(t[2..])
    else {t[0]} + Members(t[1..])
  }

  function ClassChars(t: string): set<char> {
    if t != "" && t[0] == '^' then Alphanumeric() - Members(t[1..])
    else if Members(t) == {} then Lower()
    else Members(t)
  }

  /** What is drawn from a class: `a` when there is nothing to draw from. */
  function Drawn(t: string): set<char> {
    if ClassChars(t) == {} then {'a'} else ClassChars(t)
  }

  function EscapeChars(c: char): set<char> {
    if c == 'd' then Digits()
    else if c == 'D' || c == 'S' then Lower()
    else if c == 'w' then Word()
    else if c == 'W' then Punctuation()
    else if c == 's' then {' '}
    else if c == 'n' then {'\n'}
    else if c == 't' then {'\t'}
    else {c}
  }

  // ---- quantifiers ----

  /** A quantifier: how many copies it allows, how much text it takes, and whether a bound was capped. */
  datatype Quantity = Quantity(low: nat, high: nat, width: nat, capped: bool)

  function NumberOr(s: string, default: nat): nat {
    var n := ParseUsize(Trim(s));
    if n.Some? then n.value else default
  }

  function Min(a: nat, b: nat): nat {
    if a <= b then a else b
  }

  function Max(a: nat, b: nat): nat {
    if a <= b then b else a
  }

  function SaturatingAdd(a: nat, b: nat): nat {
    Min(a + b, USIZE_MAX)
  }

  /** The quantifier `{inner}`. */
  function Braces(inner: string): Quantity {
    match Find(inner, ",")
    case Some(comma) =>
      var low := NumberOr(inner[..comma], 1);
      var high := NumberOr(inner[comma + 1..], SaturatingAdd(low, 5));
      Quantity(Min(low, MAX_REGEX_REPEAT), Max(Min(high, MAX_REGEX_REPEAT), Min(low, MAX_REGEX_REPEAT)),
               |inner| + 2, low > MAX_REGEX_REPEAT || high > MAX_REGEX_REPEAT)
    case None =>
      var exact := NumberOr(inner, 1);
      Quantity(Min(exact, MAX_REGEX_REPEAT), Min(exact, MAX_REGEX_REPEAT), |inner| + 2, exact > MAX_REGEX_REPEAT)
  }

  /** The quantifier `p` starts with. */
  function Quantifier(p: string): (q: Quantity)
    ensures q.low <= q.high && q.width <= |p|
  {
    if p == "" then Quantity(1, 1, 0, false)
    else if p[0] == '*' then Quantity(0, 5, 1, false)
    else if p[0] == '+' then Quantity(1, 5, 1, false)
    else if p[0] == '?' then Quantity(0, 1, 1, false)
    else if p[0] == '{' && Find(p[1..], "}").Some? then Braces(p[1..Find(p[1..], "}").value + 1])
    else Quantity(1, 1, 0, false)
  }

  function Repeat(s: string, n: nat): string {
    if n == 0 then "" else s + Repeat(s, n - 1)
  }

  // ---- everything the generator may emit ----

  /** One outcome of the generator: the text, and whether it recorded a capped quantifier. */
  datatype Draw = Draw(text: string, capped: bool)

  /** Repeats of one and the same unit, as often as `q` allows, each followed by a tail. */
  ghost function Followed(units: iset<Draw>, q: Quantity, tails: iset<Draw>): iset<Draw> {
    iset u, n: nat, t | u in units && q.low <= n <= q.high && t in tails ::
      Draw(Repeat(u.text, n) + t.text, u.capped || q.capped || t.capped)
  }

  ghost function Single(chars: set<char>): iset<Draw> {
    iset c | c in chars :: Draw([c], false)
  }

  /** How much text the atom at the front of `p` takes. */
  function AtomWidth(p: string): (w: nat)
    requires p != ""
    ensures 0 < w <= |p|
  {
    if p[0] == '(' then GroupEnd(p) + 1
    else if p[0] == '[' then ClassEnd(p) + 1
    else if p[0] == '\\' && |p| > 1 then 2
    else 1
  }

  /** An opening parenthesis or bracket that ends the text makes the source slice out of range. */
  predicate Slices(p: string)
    requires p != ""
  {
    (p[0] == '(' ==> GroupEnd(p) > 0) && (p[0] == '[' ==> ClassEnd(p) > 0)
  }

  /** The atoms that emit one character, and the characters each may emit. */
  function AtomChars(p: string): set<char>
    requires p != "" && p[0] != '(' && Slices(p)
  {
    if p[0] == '[' then Drawn(p[1..ClassEnd(p)])
    else if p[0] == '\\' && |p| > 1 then EscapeChars(p[1])
    else if p[0] == '.' then Alphanumeric()
    else {p[0]}
  }

  /** What is left of `p` after its first atom and the quantifier on it. */
  function Rest(p: string): (r: string)
    requires p != ""
    ensures |r| < |p| && r == p[|p| - |r|..]
  {
    var w := AtomWidth(p);
    p[w..][Quantifier(p[w..]).width..]
  }

  function AtomQuantity(p: string): (q: Quantity)
    requires p != ""
    ensures q.low <= q.high
  {
    Quantifier(p[AtomWidth(p)..])
  }

  ghost function Outputs(p: string): iset<Draw>
    decreases |p|, 2, 0
  {
    if p == "" || p[0] == '|' then iset{Draw("", false)}
    else if p[0] == '^' || p[0] == '$' then Outputs(p[1..])
    else if !Slices(p) then iset{}
    else Followed(AtomOutputs(p), AtomQuantity(p), Outputs(Rest(p)))
  }

  ghost function AtomOutputs(p: string): iset<Draw>
    requires p != "" && Slices(p)
    decreases |p|, 1, 0
  {
    if p[0] == '(' then
      AlternativesFit(p[1..GroupEnd(p)], 0);
      AnyOutputs(Alternatives(p[1..GroupEnd(p)], 0), |p| - 1)
    else Single(AtomChars(p))
  }

  ghost function AnyOutputs(alts: seq<string>, bound: nat): iset<Draw>
    requires NoLonger(alts, bound)
    decreases bound + 1, 0, |alts|
  {
    if alts == [] then iset{} else Outputs(alts[0]) + AnyOutputs(alts[1..], bound)
  }

  /** No choice of alternatives leads the generator to slice out of range. */
  predicate Safe(p: string)
    decreases |p|
  {
    p == "" || p[0] == '|' ||
    if p[0] == '^' || p[0] == '$' then Safe(p[1..])
    else
      Slices(p) &&
      (p[0] == '(' ==>
        var alts := Alternatives(p[1..GroupEnd(p)], 0);
        AlternativesFit(p[1..GroupEnd(p)], 0);
        forall k | 0 <= k < |alts| :: Safe(alts[k])) &&
      Safe(Rest(p))
  }

  // ---- which texts make the generator panic ----

  /** The generator, reading `p`, may come to read `q`: what is left of `p`, or an alternative of its first group. */
  predicate Step(p: string, q: string) {
    && p != "" && p[0] != '|'
    && if p[0] == '^' || p[0] == '$' then q == p[1..]
       else Slices(p) && (q == Rest(p) || (p[0] == '(' && q in Alternatives(p[1..GroupEnd(p)], 0)))
  }

  predicate Leads(p: string, chain: seq<string>) {
    chain != [] && chain[0] == p && forall i | 0 <= i < |chain| - 1 :: Step(chain[i], chain[i + 1])
  }

  predicate Panics(p: string) {
    p == "(" || p == "["
  }

  lemma SlicesExactly(p: string)
    requires p != ""
    ensures Slices(p) <==> !Panics(p)
    ensures Panics(p) ==> !Safe(p)
  {
    if Panics(p) {
      assert p[1..] == "";
    } else if |p| == 1 {
      assert p == [p[0]];
    }
  }

  /**
   * The generator reads no text that makes it slice out of range, whatever it chooses, if and only if the text is safe.
   */
  lemma SafeExactly(p: string)
    ensures Safe(p) <==> forall chain | Leads(p, chain) :: !Panics(chain[|chain| - 1])
  {
    if Safe(p) {
      forall chain | Leads(p, chain)
        ensures !Panics(chain[|chain| - 1])
      {
        SafeAlong(chain);
        if Panics(chain[|chain| - 1]) {
          SlicesExactly(chain[|chain| - 1]);
        }
      }
    } else {
      var chain := UnsafeLeads(p);
    }
  }

  lemma SafeStep(p: string, q: string)
    requires Safe(p) && Step(p, q)
    ensures Safe(q)
  {
    if p[0] == '(' && q != Rest(p) {
      var alts := Alternatives(p[1..GroupEnd(p)], 0);
      AlternativesFit(p[1..GroupEnd(p)], 0);
      var k :| 0 <= k < |alts| && alts[k] == q;
      assert Safe(alts[k]);
    }
  }

  lemma {:induction false} SafeAlong(chain: seq<string>)
    requires chain != [] && Safe(chain[0]) && Leads(chain[0], chain)
    ensures Safe(chain[|chain| - 1])
  {
    if |chain| > 1 {
      SafeStep(chain[0], chain[0 + 1]);
      var rest := chain[1..];
      assert forall i | 0 <= i < |rest| :: rest[i] == chain[i + 1];
      SafeAlong(rest);
    }
  }

  lemma UnsafeStep(p: string) returns (q: string)
    requires !Safe(p) && !Panics(p)
    ensures Step(p, q) && !Safe(q) && |q| < |p|
  {
    if p[0] == '^' || p[0] == '$' {
      q := p[1..];
    } else {
      SlicesExactly(p);
      q := Rest(p);
      if Safe(Rest(p)) {
        var alts := Alternatives(p[1..GroupEnd(p)], 0);
        AlternativesFit(p[1..GroupEnd(p)], 0);
        var k :| 0 <= k < |alts| && !Safe(alts[k]);
        q := alts[k];
      }
    }
  }

  lemma {:induction false} UnsafeLeads(p: string) returns (chain: seq<string>)
    requires !Safe(p)
    ensures Leads(p, chain) && Panics(chain[|chain| - 1])
    decreases |p|
  {
    if Panics(p) {
      chain := [p];
    } else {
      var q := UnsafeStep(p);
      var rest := UnsafeLeads(q);
      chain := [p] + rest;
      assert forall i | 1 <= i < |chain| :: chain[i] == rest[i - 1];
    }
  }

  lemma {:induction false} OneOutput(alts: seq<string>, bound: nat, k: nat, d: Draw)
    requires NoLonger(alts, bound)
    requires k < |alts| && d in Outputs(alts[k])
    ensures Emitted(d, alts, bound)
  {
    if k > 0 {
      assert alts[1..][k - 1] == alts[k];
      OneOutput(alts[1..], bound, k - 1, d);
    }
  }

  ghost predicate Emitted(d: Draw, alts: seq<string>, bound: nat)
    requires NoLonger(alts, bound)
  {
    d in AnyOutputs(alts, bound)
  }

  ghost predicate Emits(p: string, d: Draw) {
    d in Outputs(p)
  }

  lemma EmittedStep(alts: seq<string>, bound: nat, d: Draw)
    requires NoLonger(alts, bound) && Emitted(d, alts, bound)
    ensures alts != [] && (Emits(alts[0], d) || Emitted(d, alts[1..], bound))
  {
  }

  lemma {:induction false} SomeOutput(alts: seq<string>, bound: nat, d: Draw) returns (k: nat)
    requires NoLonger(alts, bound) && Emitted(d, alts, bound)
    ensures k < |alts| && Emits(alts[k], d)
    decreases |alts|
  {
    EmittedStep(alts, bound, d);
    k := 0;
    if !Emits(alts[0], d) {
      var j := SomeOutput(alts[1..], bound, d);
      assert alts[1..][j] == alts[j + 1];
      k := j + 1;
    }
  }

  lemma GroupOutputs(p: string, alts: seq<string>)
    requires p != "" && p[0] == '(' && Slices(p) && alts == Alternatives(p[1..GroupEnd(p)], 0)
    ensures NoLonger(alts, |p| - 1) && forall d :: Emitted(d, alts, |p| - 1) <==> d in AtomOutputs(p)
  {
    AlternativesFit(p[1..GroupEnd(p)], 0);
  }

  lemma OneAlternative(p: string, k: nat, d: Draw)
    requires p != "" && p[0] == '(' && GroupEnd(p) > 0
    requires var alts := Alternatives(p[1..GroupEnd(p)], 0); k < |alts| && d in Outputs(alts[k])
    ensures d in AtomOutputs(p)
  {
    var alts := Alternatives(p[1..GroupEnd(p)], 0);
    GroupOutputs(p, alts);
    OneOutput(alts, |p| - 1, k, d);
  }

  lemma SomeAlternative(p: string, d: Draw) returns (k: nat)
    requires p != "" && p[0] == '(' && Slices(p) && d in AtomOutputs(p)
    ensures var alts := Alternatives(p[1..GroupEnd(p)], 0); k < |alts| && d in Outputs(alts[k])
  {
    var alts := Alternatives(p[1..GroupEnd(p)], 0);
    GroupOutputs(p, alts);
    k := SomeOutput(alts, |p| - 1, d);
  }
}
