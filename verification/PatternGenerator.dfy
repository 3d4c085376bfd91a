/** The hand-written pattern generator: its scanning loops and its recursive descent. */
module PatternGenerator {
  import opened Strings
  import opened PatternText
  import opened Randoms

  /** Where the open group closes, as a position in the whole text. */
  function CloseFrom(chars: string, i: nat, depth: nat): Option<nat>
    requires i <= |chars| && depth > 0
    decreases |chars| - i
  {
    if i == |chars| then None
    else if chars[i] == ')' && depth == 1 then Some(i)
    else CloseFrom(chars, i + 1, Deeper(chars[i], depth))
  }

  lemma {:induction false} CloseFromIs(chars: string, i: nat, depth: nat)
    requires i <= |chars| && depth > 0
    ensures CloseFrom(chars, i, depth) == Later(Close(chars[i..], depth), i)
    decreases |chars| - i
  {
    if i < |chars| {
      assert chars[i..][1..] == chars[i + 1..];
      CloseFromIs(chars, i + 1, if chars[i] == ')' && depth == 1 then 1 else Deeper(chars[i], depth));
    }
  }

  method FindGroupEnd(chars: string, start: nat) returns (end: nat)
    requires start < |chars| && chars[start] == '('
    ensures end == start + GroupEnd(chars[start..])
  {
    var close := FindClose(chars, start + 1);
    CloseFromIs(chars, start + 1, 1);
    assert chars[start..][1..] == chars[start + 1..];
    GroupEndIs(chars[start..], Close(chars[start + 1..], 1));
    end := if close.Some? then close.value else |chars| - 1;
  }

  /** The depth counter: the group that opened just before `start` is at depth one. */
  method FindClose(chars: string, start: nat) returns (r: Option<nat>)
    requires start <= |chars|
    ensures r == CloseFrom(chars, start, 1)
  {
    var depth: nat := 1;
    for i := start to |chars|
      invariant depth > 0 && CloseFrom(chars, start, 1) == CloseFrom(chars, i, depth)
    {
      if chars[i] == '(' {
        depth := depth + 1;
      } else if chars[i] == ')' {
        depth := depth - 1;
        if depth == 0 {
          return Some(i);
        }
      }
    }
    r := None;
  }

  method FindClassEnd(chars: string, start: nat) returns (end: nat)
    requires start < |chars| && chars[start] == '['
    ensures end == start + ClassEnd(chars[start..])
  {
    ghost var inside := chars[start..][1..];
    for i := start + 1 to |chars|
      invariant ']' !in inside[..i - start - 1]
    {
      if chars[i] == ']' {
        FoundAt(inside, ']', i - start - 1);
        return i;
      }
    }
    NotFound(inside, ']');
    end := |chars| - 1;
  }

  lemma PrependNothing(alts: seq<string>)
    requires alts != []
    ensures Prepended("", alts) == alts
  {
    assert "" + alts[0] == alts[0];
  }

  lemma AtPipe(done: seq<string>, text: string, p: string)
    requires p != "" && p[0] == '|'
    ensures done + Prepended(text, Alternatives(p, 0)) == done + [text] + Alternatives(p[1..], 0)
  {
    var rest := Alternatives(p[1..], 0);
    assert text + "" == text;
    assert ([""] + rest)[1..] == rest;
  }

  lemma PrependMore(text: string, c: char, alts: seq<string>)
    requires alts != []
    ensures Prepended(text, Prepended([c], alts)) == Prepended(text + [c], alts)
  {
    assert text + ([c] + alts[0]) == text + [c] + alts[0];
  }

  lemma PastPipe(text: string, p: string, depth: int)
    requires p != "" && !(p[0] == '|' && depth == 0)
    ensures Prepended(text, Alternatives(p, depth)) ==
              Prepended(text + [p[0]], Alternatives(p[1..], Deeper(p[0], depth)))
  {
    PrependMore(text, p[0], Alternatives(p[1..], Deeper(p[0], depth)));
  }

  method SplitAlternation(pattern: string) returns (result: seq<string>)
    ensures result == Alternatives(pattern, 0)
  {
    result := [];
    var depth := 0;
    var start := 0;
    ghost var rest := pattern;
    ghost var text := "";
    PrependNothing(Alternatives(pattern, 0));
    for i := 0 to |pattern|
      invariant start <= i && rest == pattern[i..] && text == pattern[start..i]
      invariant Alternatives(pattern, 0) == result + Prepended(text, Alternatives(rest, depth))
    {
      if pattern[i] == '|' && depth == 0 {
        AtPipe(result, text, rest);
        PrependNothing(Alternatives(rest[1..], 0));
        result := result + [pattern[start..i]];
        start := i + 1;
        text := "";
      } else {
        PastPipe(text, rest, depth);
        depth := if pattern[i] == '(' then depth + 1 else if pattern[i] == ')' then depth - 1 else depth;
        text := text + [pattern[i]];
      }
      rest := rest[1..];
    }
    assert text == pattern[start..] && text + "" == text;
    result := result + [pattern[start..]];
  }

  method ExpandCharClass(classStr: string) returns (chars: set<char>)
    ensures chars == ClassChars(classStr)
  {
    chars := {};
    var negated := classStr != "" && classStr[0] == '^';
    var content := if negated then classStr[1..] else classStr;
    var i := 0;
    while i < |content|
      invariant i <= |content|
      invariant Members(content) == chars + Members(content[i..])
    {
      var rest := content[i..];
      if i + 2 < |content| && content[i + 1] == '-' {
        chars := chars + Span(content[i], content[i + 2]);
        assert rest[3..] == content[i + 3..];
        i := i + 3;
      } else if content[i] == '\\' && i + 1 < |content| {
        chars := chars + EscapeMembers(content[i + 1]);
        assert rest[2..] == content[i + 2..];
        i := i + 2;
      } else {
        chars := chars + {content[i]};
        assert rest[1..] == content[i + 1..];
        i := i + 1;
      }
    }
    if negated {
      chars := Alphanumeric() - chars;
    } else if chars == {} {
      chars := Lower();
    }
  }

  method PickFromSet(chars: set<char>, rng: Random) returns (c: char)
    ensures c in if chars == {} then {'a'} else chars
  {
    if chars == {} {
      return 'a';
    }
    c := rng.PickChar(chars);
  }

  /** The error slot after a step that may have capped a quantifier. */
  predicate Recorded(before: Option<Fault>, after: Option<Fault>, capped: bool) {
    if before.Some? || !capped then after == before else after.Some? && after.value.QuantifierCapped?
  }

  method DrawBraces(inner: string, rng: Random) returns (count: nat)
    modifies rng
    ensures Braces(inner).low <= count <= Braces(inner).high
    ensures Recorded(old(rng.error), rng.error, Braces(inner).capped)
  {
    var comma := Find(inner, ",");
    if comma.Some? {
      var rawMin := NumberOr(inner[..comma.value], 1);
      var rawMax := NumberOr(inner[comma.value + 1..], SaturatingAdd(rawMin, 5));
      if rawMin > MAX_REGEX_REPEAT || rawMax > MAX_REGEX_REPEAT {
        rng.SetError(QuantifierCapped(rawMin, rawMax));
      }
      var min := Min(rawMin, MAX_REGEX_REPEAT);
      var max := Max(Min(rawMax, MAX_REGEX_REPEAT), min);
      count := rng.Int(min, max);
    } else {
      var rawExact := NumberOr(inner, 1);
      if rawExact > MAX_REGEX_REPEAT {
        rng.SetError(QuantifierCapped(rawExact, rawExact));
      }
      count := Min(rawExact, MAX_REGEX_REPEAT);
    }
  }

  method HandleQuantifier(chars: string, pos: nat, piece: string, rng: Random) returns (text: string, consumed: nat)
    requires pos <= |chars|
    modifies rng
    ensures var q := Quantifier(chars[pos..]);
      && consumed == q.width
      && Recorded(old(rng.error), rng.error, q.capped)
      && exists n: nat :: q.low <= n <= q.high && text == Repeat(piece, n)
  {
    ghost var q := Quantifier(chars[pos..]);
    var count := 1;
    consumed := 0;
    if pos < |chars| {
      if chars[pos] == '*' {
        count := rng.Int(0, 5);
        consumed := 1;
      } else if chars[pos] == '+' {
        count := rng.Int(1, 5);
        consumed := 1;
      } else if chars[pos] == '?' {
        count := rng.Int(0, 1);
        consumed := 1;
      } else if chars[pos] == '{' {
        assert chars[pos..][1..] == chars[pos + 1..];
        var close := Find(chars[pos + 1..], "}");
        if close.Some? {
          var inner := chars[pos + 1..pos + 1 + close.value];
          assert inner == chars[pos..][1..close.value + 1];
          consumed := close.value + 2;
          count := DrawBraces(inner, rng);
        }
      }
    }
    text := Repeat(piece, count);
    assert q.low <= count <= q.high;
  }

  /** The characters that are not atoms: anchors, which are skipped, and the pipe, which ends the text. */
  predicate Unquantified(c: char) {
    c == '^' || c == '$' || c == '|'
  }

  function Onto(result: string, capped: bool, t: Draw): Draw {
    Draw(result + t.text, capped || t.capped)
  }

  /** Whatever the rest of the text emits, `result` in front of it makes an outcome of the whole. */
  ghost predicate Continues(whole: iset<Draw>, result: string, capped: bool, tails: iset<Draw>) {
    forall t {:trigger Onto(result, capped, t)} | t in tails :: Onto(result, capped, t) in whole
  }

  /** One pass of the loop: `n` copies of what the atom in front emitted. */
  lemma Advance(whole: iset<Draw>, p: string, result: string, capped: bool, u: Draw, n: nat)
    requires p != "" && !Unquantified(p[0]) && Slices(p)
    requires Continues(whole, result, capped, Outputs(p))
    requires u in AtomOutputs(p)
    requires AtomQuantity(p).low <= n <= AtomQuantity(p).high
    ensures Continues(whole, result + Repeat(u.text, n), capped || u.capped || AtomQuantity(p).capped,
                      Outputs(Rest(p)))
  {
    var q := AtomQuantity(p);
    var text := Repeat(u.text, n);
    forall t | t in Outputs(Rest(p))
      ensures Onto(result + text, capped || u.capped || q.capped, t) in whole
    {
      var longer := Draw(text + t.text, u.capped || q.capped || t.capped);
      assert longer in Followed(AtomOutputs(p), q, Outputs(Rest(p)));
      assert Onto(result, capped, longer) in whole;
      assert result + longer.text == result + text + t.text;
    }
  }

  lemma SkipAnchor(pattern: string, i: nat)
    requires i < |pattern| && (pattern[i] == '^' || pattern[i] == '$') && Safe(pattern[i..])
    ensures Outputs(pattern[i..]) == Outputs(pattern[i + 1..]) && Safe(pattern[i + 1..])
  {
    assert pattern[i..][1..] == pattern[i + 1..];
  }

  lemma Finish(whole: iset<Draw>, p: string, result: string, capped: bool)
    requires Continues(whole, result, capped, Outputs(p))
    requires p == "" || p[0] == '|'
    ensures Draw(result, capped) in whole
  {
    assert Onto(result, capped, Draw("", false)) in whole;
    assert result + "" == result;
  }

  lemma OneChar(p: string, c: char)
    requires p != "" && p[0] != '(' && Slices(p) && c in AtomChars(p)
    ensures Draw([c], false) in AtomOutputs(p)
  {}

  lemma SafeGroup(p: string)
    requires p != "" && p[0] == '(' && Safe(p)
    ensures GroupEnd(p) > 0
    ensures forall alt | alt in Alternatives(p[1..GroupEnd(p)], 0) :: |alt| < |p| && Safe(alt)
  {
    AlternativesFit(p[1..GroupEnd(p)], 0);
  }

  lemma NothingDone(p: string)
    ensures Continues(Outputs(p), "", false, Outputs(p))
  {
    forall t | t in Outputs(p)
      ensures Onto("", false, t) in Outputs(p)
    {
      assert Onto("", false, t) == t;
    }
  }

  method Generate(pattern: string, rng: Random) returns (result: string, ghost capped: bool)
    requires Safe(pattern)
    modifies rng
    ensures Draw(result, capped) in Outputs(pattern)
    ensures Recorded(old(rng.error), rng.error, capped)
    decreases |pattern|, 4
  {
    result := "";
    capped := false;
    var i := 0;
    assert pattern[0..] == pattern;
    NothingDone(pattern);
    ghost var before := rng.error;
    ghost var whole := Outputs(pattern);
    while i < |pattern|
      invariant i <= |pattern| && Safe(pattern[i..])
      invariant Recorded(before, rng.error, capped)
      invariant Continues(whole, result, capped, Outputs(pattern[i..]))
    {
      if pattern[i] == '|' {
        break;
      }
      result, i, capped := OnePass(pattern, i, rng, whole, before, result, capped);
    }
    Finish(whole, pattern[i..], result, capped);
  }

  method OnePass(pattern: string, start: nat, rng: Random, ghost whole: iset<Draw>,
                 ghost before: Option<Fault>, result: string, ghost capped: bool)
    returns (longer: string, next: nat, ghost nowCapped: bool)
    requires start < |pattern| && pattern[start] != '|' && Safe(pattern[start..])
    requires Continues(whole, result, capped, Outputs(pattern[start..]))
    requires Recorded(before, rng.error, capped)
    modifies rng
    ensures start < next <= |pattern| && Safe(pattern[next..])
    ensures Continues(whole, longer, nowCapped, Outputs(pattern[next..]))
    ensures Recorded(before, rng.error, nowCapped)
    decreases |pattern|, 3
  {
    if pattern[start] == '^' || pattern[start] == '$' {
      SkipAnchor(pattern, start);
      longer, next, nowCapped := result, start + 1, capped;
    } else {
      longer, next, nowCapped := AppendPiece(pattern, start, rng, whole, before, result, capped);
    }
  }

  /** An atom and its quantifier, appended to what is already there. */
  method AppendPiece(pattern: string, start: nat, rng: Random, ghost whole: iset<Draw>,
                     ghost before: Option<Fault>, result: string, ghost capped: bool)
    returns (longer: string, next: nat, ghost nowCapped: bool)
    requires start < |pattern| && !Unquantified(pattern[start]) && Safe(pattern[start..])
    requires Continues(whole, result, capped, Outputs(pattern[start..]))
    requires Recorded(before, rng.error, capped)
    modifies rng
    ensures start < next <= |pattern| && Safe(pattern[next..])
    ensures Continues(whole, longer, nowCapped, Outputs(pattern[next..]))
    ensures Recorded(before, rng.error, nowCapped)
    decreases |pattern|, 2
  {
    ghost var here := pattern[start..];
    var piece, i;
    ghost var unitCapped;
    piece, i, unitCapped := DrawAtom(pattern, start, rng);
    assert here[AtomWidth(here)..] == pattern[i..];
    var text, consumed := HandleQuantifier(pattern, i, piece, rng);
    ghost var q := AtomQuantity(here);
    ghost var n: nat :| q.low <= n <= q.high && text == Repeat(piece, n);
    Advance(whole, here, result, capped, Draw(piece, unitCapped), n);
    nowCapped := capped || unitCapped || q.capped;
    longer := result + text;
    next := i + consumed;
    assert pattern[next..] == Rest(here) by {
      assert pattern[next..] == pattern[i..][consumed..];
    }
  }

  method DrawAtom(pattern: string, start: nat, rng: Random)
    returns (piece: string, next: nat, ghost capped: bool)
    requires start < |pattern| && !Unquantified(pattern[start]) && Safe(pattern[start..])
    modifies rng
    ensures next == start + AtomWidth(pattern[start..])
    ensures Draw(piece, capped) in AtomOutputs(pattern[start..])
    ensures Recorded(old(rng.error), rng.error, capped)
    decreases |pattern|, 1
  {
    ghost var here := pattern[start..];
    var c := pattern[start];
    capped := false;
    next := start + 1;
    piece := [c];
    if c == '(' {
      piece, next, capped := DrawGroup(pattern, start, rng);
    } else if c == '[' {
      var end := FindClassEnd(pattern, start);
      assert pattern[start + 1..end] == here[1..ClassEnd(here)];
      var chars := ExpandCharClass(pattern[start + 1..end]);
      var picked := PickFromSet(chars, rng);
      piece := [picked];
      next := end + 1;
    } else if c == '\\' && start + 1 < |pattern| {
      piece := DrawEscape(pattern[start + 1], rng);
      next := start + 2;
    } else if c == '.' {
      assert 'a' in Alphanumeric();
      var picked := rng.PickChar(Alphanumeric());
      piece := [picked];
    }
    if c != '(' {
      assert piece == [piece[0]];
      OneChar(here, piece[0]);
    }
  }

  method DrawGroup(pattern: string, start: nat, rng: Random)
    returns (piece: string, next: nat, ghost capped: bool)
    requires start < |pattern| && pattern[start] == '(' && Safe(pattern[start..])
    modifies rng
    ensures next == start + GroupEnd(pattern[start..]) + 1
    ensures Draw(piece, capped) in AtomOutputs(pattern[start..])
    ensures Recorded(old(rng.error), rng.error, capped)
    decreases |pattern|, 0
  {
    ghost var here := pattern[start..];
    var end := FindGroupEnd(pattern, start);
    assert pattern[start + 1..end] == here[1..GroupEnd(here)];
    var alternatives := SplitAlternation(pattern[start + 1..end]);
    SafeGroup(here);
    var k := rng.PickIndex(|alternatives|);
    var picked := alternatives[k];
    piece, capped := Generate(picked, rng);
    OneAlternative(here, k, Draw(piece, capped));
    next := end + 1;
  }

  method DrawEscape(escaped: char, rng: Random) returns (piece: string)
    ensures |piece| == 1 && piece[0] in EscapeChars(escaped)
  {
    var chars := EscapeChars(escaped);
    assert '0' in Digits() && 'a' in Lower() && 'a' in Word() && '!' in Punctuation();
    var c := rng.PickChar(chars);
    piece := [c];
  }
}
