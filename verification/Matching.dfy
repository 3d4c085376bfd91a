/** Matching a request path against a path template, segment by segment. */
module Matching {
  import opened Strings
  import opened Templates

  /** Captured parameters, filled in place. */
  class Params {
    var bound: map<string, string>

    constructor ()
      ensures bound == map[]
    {
      bound := map[];
    }
  }

  function Insert(m: map<string, string>, bs: seq<Binding>): map<string, string>
    decreases |bs|
  {
    if bs == [] then m else Insert(m[bs[0].name := bs[0].value], bs[1..])
  }

  lemma {:induction false} InsertJoins(m: map<string, string>, a: seq<Binding>, b: seq<Binding>)
    ensures Insert(m, a + b) == Insert(Insert(m, a), b)
    decreases |a|
  {
    if a == [] {
      assert a + b == b;
    } else {
      assert (a + b)[1..] == a[1..] + b;
      InsertJoins(m[a[0].name := a[0].value], a[1..], b);
    }
  }

  /** Whether a segment matched, and what was captured, up to the mismatch if there is one. */
  datatype Outcome = Outcome(ok: bool, captured: seq<Binding>)

  function After(captured: seq<Binding>, rest: Outcome): Outcome {
    Outcome(rest.ok, captured + rest.captured)
  }

  // ---- mixed segments ----

  function Walk(parts: seq<Part>, actual: string): Outcome
    decreases |parts|
  {
    if parts == [] then Outcome(actual == "", [])
    else
      match parts[0]
      case Literal(text) => if text <= actual then Walk(parts[1..], actual[|text|..]) else Outcome(false, [])
      case Param(name) =>
        if |parts| == 1 then if actual == "" then Outcome(false, []) else Outcome(true, [Binding(name, actual)])
        else if parts[1].Param? then Outcome(false, [])
        else
          match Find(actual, parts[1].text)
          case None => Outcome(false, [])
          case Some(off) =>
            if off == 0 then Outcome(false, [])
            else
              After([Binding(name, actual[..off])], Walk(parts[1..], actual[off..]))
  }

  method MatchMixedSegment(template: string, actual: string, params: Params) returns (ok: bool)
    modifies params
    ensures ok == Walk(Parts(template, ""), actual).ok
    ensures params.bound == Insert(old(params.bound), Walk(Parts(template, ""), actual).captured)
  {
    var parts := SplitTemplateParts(template);
    ghost var whole := Walk(parts, actual);
    ghost var before := params.bound;
    ghost var done: seq<Binding> := [];
    var cursor: nat, idx: nat := 0, 0;
    assert parts[0..] == parts && actual[0..] == actual;
    while idx < |parts|
      invariant idx <= |parts| && cursor <= |actual|
      invariant params.bound == Insert(before, done)
      invariant whole == After(done, Walk(parts[idx..], actual[cursor..]))
    {
      ghost var more;
      ok, cursor, more := MatchPart(parts, idx, actual, cursor, params, before, done);
      if !ok {
        assert done + [] == done;
        return;
      }
      AfterJoins(done, more, Walk(parts[idx + 1..], actual[cursor..]));
      done := done + more;
      idx := idx + 1;
    }
    assert parts[idx..] == [] && done + [] == done;
    ok := cursor == |actual|;
  }

  lemma AfterJoins(a: seq<Binding>, b: seq<Binding>, rest: Outcome)
    ensures After(a, After(b, rest)) == After(a + b, rest)
  {
    assert a + (b + rest.captured) == a + b + rest.captured;
  }

  /** What one part does to a match: it fails, or captures `more` and leaves the rest from `next`. */
  ghost predicate Takes(parts: seq<Part>, idx: nat, actual: string, cursor: nat, ok: bool, next: nat,
                        more: seq<Binding>)
    requires idx < |parts| && cursor <= |actual| && next <= |actual|
  {
    && (!ok ==> more == [])
    && Walk(parts[idx..], actual[cursor..]) ==
       if ok then After(more, Walk(parts[idx + 1..], actual[next..])) else Outcome(false, [])
  }

  /** One part: a literal moves the cursor past itself, a capture up to the literal after it or to the end. */
  method MatchPart(parts: seq<Part>, idx: nat, actual: string, cursor: nat, params: Params,
                   ghost before: map<string, string>, ghost done: seq<Binding>)
    returns (ok: bool, next: nat, ghost more: seq<Binding>)
    requires idx < |parts| && cursor <= |actual| && params.bound == Insert(before, done)
    modifies params
    ensures next <= |actual| && params.bound == Insert(before, done + more)
    ensures Takes(parts, idx, actual, cursor, ok, next, more)
  {
    if parts[idx].Literal? {
      ok, next := MatchLiteral(parts, idx, actual, cursor);
      more := [];
      assert done + [] == done;
    } else {
      ok, next, more := MatchParam(parts, idx, actual, cursor, params, before, done);
    }
  }

  method MatchLiteral(parts: seq<Part>, idx: nat, actual: string, cursor: nat) returns (ok: bool, next: nat)
    requires idx < |parts| && parts[idx].Literal? && cursor <= |actual|
    ensures next <= |actual| && Takes(parts, idx, actual, cursor, ok, next, [])
  {
    LiteralStep(parts, idx, actual, cursor);
    ok := parts[idx].text <= actual[cursor..];
    next := if ok then cursor + |parts[idx].text| else cursor;
  }

  method MatchParam(parts: seq<Part>, idx: nat, actual: string, cursor: nat, params: Params,
                    ghost before: map<string, string>, ghost done: seq<Binding>)
    returns (ok: bool, next: nat, ghost more: seq<Binding>)
    requires idx < |parts| && parts[idx].Param? && cursor <= |actual| && params.bound == Insert(before, done)
    modifies params
    ensures next <= |actual| && params.bound == Insert(before, done + more)
    ensures Takes(parts, idx, actual, cursor, ok, next, more)
  {
    ok, next := CaptureEnd(parts, idx, actual, cursor);
    if ok {
      more := [Binding(parts[idx].name, actual[cursor..next])];
      Capture(params, parts[idx].name, actual[cursor..next], before, done);
    } else {
      more := [];
      assert done + [] == done;
    }
  }

  lemma LiteralStep(parts: seq<Part>, idx: nat, actual: string, cursor: nat)
    requires idx < |parts| && parts[idx].Literal? && cursor <= |actual|
    ensures var text := parts[idx].text;
      Walk(parts[idx..], actual[cursor..]) ==
      if text <= actual[cursor..]
      then After([], Walk(parts[idx + 1..], actual[cursor + |text|..]))
      else Outcome(false, [])
  {
    var text := parts[idx].text;
    assert parts[idx..][1..] == parts[idx + 1..];
    if text <= actual[cursor..] {
      assert actual[cursor..][|text|..] == actual[cursor + |text|..];
      var rest := Walk(parts[idx + 1..], actual[cursor + |text|..]);
      assert [] + rest.captured == rest.captured;
    }
  }

  /** A capture that takes everything up to `end`, or fails. */
  ghost predicate TakesUpTo(parts: seq<Part>, idx: nat, actual: string, cursor: nat, ok: bool, end: nat)
    requires idx < |parts| && parts[idx].Param? && cursor <= end <= |actual|
  {
    Takes(parts, idx, actual, cursor, ok, end, if ok then [Binding(parts[idx].name, actual[cursor..end])] else [])
  }

  /** Where a capture ends: at the literal after it, or at the end; it never takes nothing. */
  method CaptureEnd(parts: seq<Part>, idx: nat, actual: string, cursor: nat) returns (ok: bool, end: nat)
    requires idx < |parts| && parts[idx].Param? && cursor <= |actual|
    ensures cursor <= end <= |actual|
    ensures TakesUpTo(parts, idx, actual, cursor, ok, end)
  {
    if idx + 1 == |parts| {
      LastCapture(parts, idx, actual, cursor);
      return cursor < |actual|, |actual|;
    }
    var off := Room(parts, idx, actual[cursor..]);
    CaptureStep(parts, idx, actual, cursor);
    return off > 0, cursor + off;
  }

  /** How much a capture before another part takes: up to the next literal; nothing makes it fail. */
  function Room(parts: seq<Part>, idx: nat, rest: string): nat
    requires idx + 1 < |parts|
  {
    if parts[idx + 1].Literal? && Find(rest, parts[idx + 1].text).Some?
    then Find(rest, parts[idx + 1].text).value
    else 0
  }

  lemma LastCapture(parts: seq<Part>, idx: nat, actual: string, cursor: nat)
    requires idx + 1 == |parts| && parts[idx].Param? && cursor <= |actual|
    ensures TakesUpTo(parts, idx, actual, cursor, cursor < |actual|, |actual|)
  {
    assert parts[idx..] == [parts[idx]] && parts[idx + 1..] == [];
    assert actual[|actual|..] == "" && actual[cursor..|actual|] == actual[cursor..];
  }

  lemma CaptureStep(parts: seq<Part>, idx: nat, actual: string, cursor: nat)
    requires idx + 1 < |parts| && parts[idx].Param? && cursor <= |actual|
    ensures var off := Room(parts, idx, actual[cursor..]);
      && cursor + off <= |actual|
      && TakesUpTo(parts, idx, actual, cursor, off > 0, cursor + off)
  {
    var here, tail := parts[idx..], actual[cursor..];
    var off := Room(parts, idx, tail);
    assert here[1..] == parts[idx + 1..] && here[0] == parts[idx] && here[1] == parts[idx + 1];
    assert tail[..off] == actual[cursor..cursor + off] && tail[off..] == actual[cursor + off..];
  }

  method Capture(params: Params, name: string, value: string, ghost before: map<string, string>,
                 ghost done: seq<Binding>)
    requires params.bound == Insert(before, done)
    modifies params
    ensures params.bound == Insert(before, done + [Binding(name, value)])
  {
    params.bound := params.bound[name := value];
    InsertJoins(before, done, [Binding(name, value)]);
  }

  // ---- what a match means ----

  function ParamNames(parts: seq<Part>): seq<string> {
    if parts == [] then []
    else if parts[0].Param? then [parts[0].name] + ParamNames(parts[1..])
    else ParamNames(parts[1..])
  }

  function NamesOf(bs: seq<Binding>): seq<string> {
    seq(|bs|, i requires 0 <= i < |bs| => bs[i].name)
  }

  /** The template with its captures filled in, left to right. */
  function Render(parts: seq<Part>, bs: seq<Binding>): string
    decreases |parts|
  {
    if parts == [] then ""
    else if parts[0].Literal? then parts[0].text + Render(parts[1..], bs)
    else if bs == [] then ""
    else bs[0].value + Render(parts[1..], bs[1..])
  }

  /** A successful match captures something for every parameter, and rendering the captures gives the segment back. */
  lemma {:induction false} MatchRendersBack(parts: seq<Part>, actual: string)
    requires Walk(parts, actual).ok
    ensures var bs := Walk(parts, actual).captured;
      && NamesOf(bs) == ParamNames(parts)
      && (forall b | b in bs :: b.value != "")
      && Render(parts, bs) == actual
    decreases |parts|
  {
    if parts != [] {
      match parts[0]
      case Literal(text) =>
        MatchRendersBack(parts[1..], actual[|text|..]);
        Halves(actual, |text|);
      case Param(name) =>
        if |parts| == 1 {
          assert parts[1..] == [] && actual + "" == actual;
          RenderParam(parts, Binding(name, actual), []);
          assert [Binding(name, actual)] + [] == [Binding(name, actual)];
        } else {
          var off := Find(actual, parts[1].text).value;
          MatchRendersBack(parts[1..], actual[off..]);
          var rest := Walk(parts[1..], actual[off..]).captured;
          RenderParam(parts, Binding(name, actual[..off]), rest);
          Halves(actual, off);
        }
    }
  }

  lemma Halves(s: string, k: nat)
    requires k <= |s|
    ensures s == s[..k] + s[k..]
  {}

  lemma RenderParam(parts: seq<Part>, b: Binding, rest: seq<Binding>)
    requires parts != [] && parts[0] == Param(b.name)
    ensures NamesOf([b] + rest) == [b.name] + NamesOf(rest)
    ensures Render(parts, [b] + rest) == b.value + Render(parts[1..], rest)
  {
    FirstOf(b, rest);
    FirstName(b, rest);
  }

  lemma FirstOf(b: Binding, rest: seq<Binding>)
    ensures ([b] + rest)[0] == b && ([b] + rest)[1..] == rest
  {}

  lemma FirstName(b: Binding, rest: seq<Binding>)
    ensures NamesOf([b] + rest) == [b.name] + NamesOf(rest)
  {}

  /**
   * Nothing is ambiguous: no captured value is empty, no two captures are adjacent, and the literal after a
   * capture does not already occur before the end of the captured value.
   */
  predicate Clear(parts: seq<Part>, bs: seq<Binding>)
    decreases |parts|
  {
    parts == [] ||
    if parts[0].Literal? then Clear(parts[1..], bs)
    else
      bs != [] && bs[0].value != "" &&
      (|parts| > 1 ==> parts[1].Literal? && Find(bs[0].value + parts[1].text, parts[1].text) == Some(|bs[0].value|)) &&
      Clear(parts[1..], bs[1..])
  }

  /** Whether a literal is first found right after `v` does not depend on what follows the literal. */
  lemma FoundAfter(v: string, text: string, tail: string)
    ensures Find(v + text, text) == Some(|v|) <==> Find(v + text + tail, text) == Some(|v|)
  {
    var s, whole := v + text, v + text + tail;
    assert text <= s[|v|..] && text <= whole[|v|..] by {
      assert s[|v|..] == text && whole[|v|..] == text + tail;
    }
    forall j | 0 <= j < |v|
      ensures text <= s[j..] <==> text <= whole[j..]
    {
      assert whole[j..] == s[j..] + tail;
    }
    FirstFind(s, text, |v|);
    FirstFind(whole, text, |v|);
  }

  lemma FirstFind(s: string, text: string, k: nat)
    requires k <= |s| && text <= s[k..]
    ensures Find(s, text) == Some(k) <==> forall j | 0 <= j < k :: !(text <= s[j..])
  {
    var r := Find(s, text);
    FoundSomewhere(s, text, k);
    FoundHere(s, text, r.value);
  }

  lemma FoundHere(s: string, text: string, k: nat)
    requires k + |text| <= |s| && s[k..k + |text|] == text
    ensures text <= s[k..]
  {
    assert s[k..][..|text|] == s[k..k + |text|];
  }

  /** The converse of the above: a rendered segment matches with the same captures exactly when nothing is ambiguous. */
  lemma {:induction false} RenderMatches(parts: seq<Part>, bs: seq<Binding>)
    requires NamesOf(bs) == ParamNames(parts)
    ensures Walk(parts, Render(parts, bs)) == Outcome(true, bs) <==> Clear(parts, bs)
    decreases |parts|
  {
    if parts != [] {
      match parts[0]
      case Literal(text) =>
        RenderMatches(parts[1..], bs);
        assert Render(parts, bs)[|text|..] == Render(parts[1..], bs);
      case Param(name) =>
        assert NamesOf(bs)[0] == name == bs[0].name;
        assert NamesOf(bs[1..]) == NamesOf(bs)[1..] == ParamNames(parts[1..]);
        RenderMatches(parts[1..], bs[1..]);
        assert bs == [bs[0]] + bs[1..];
        if |parts| == 1 {
          assert parts == [Param(name)] && bs[1..] == [];
          LastParamMatches(name, bs[0]);
          assert Render(parts, bs) == bs[0].value + Render(parts[1..], bs[1..]) == bs[0].value;
        } else if parts[1].Literal? {
          var more := parts[2..];
          assert parts[1..] == [Literal(parts[1].text)] + more;
          assert parts == [Param(name)] + parts[1..];
          ParamMatches(name, parts[1].text, more, bs[0], bs[1..]);
        }
    }
  }

  lemma LastParamMatches(name: string, b: Binding)
    requires b.name == name
    ensures Walk([Param(name)], b.value) == Outcome(true, [b]) <==> b.value != ""
  {}

  lemma ParamMatches(name: string, text: string, more: seq<Part>, b: Binding, bs: seq<Binding>)
    requires b.name == name
    ensures var parts := [Param(name)] + ([Literal(text)] + more); var rest := [Literal(text)] + more;
      Walk(parts, b.value + Render(rest, bs)) == Outcome(true, [b] + bs) <==>
        b.value != "" && Find(b.value + text, text) == Some(|b.value|)
            && Walk(rest, Render(rest, bs)) == Outcome(true, bs)
  {
    var rest := [Literal(text)] + more;
    var parts := [Param(name)] + rest;
    assert parts[1..] == rest && parts[1] == Literal(text) && rest[1..] == more;
    var actual := b.value + Render(rest, bs);
    var tail := Render(more, bs);
    assert Render(rest, bs) == text + tail;
    assert actual == b.value + text + tail;
    FoundAfter(b.value, text, tail);
    assert actual[|b.value|..] == Render(rest, bs) && actual[..|b.value|] == b.value;
    FoundSomewhere(actual, text, |b.value|);
    var off := Find(actual, text).value;
    assert off == 0 || Walk(parts, actual) == After([Binding(name, actual[..off])], Walk(rest, actual[off..]));
    assert ([b] + bs)[0] == b && ([b] + bs)[1..] == bs;
    if off != 0 && Walk(parts, actual) == Outcome(true, [b] + bs) {
      assert Walk(parts, actual).captured[0] == Binding(name, actual[..off]);
      assert off == |b.value|;
      assert Walk(parts, actual).captured[1..] == Walk(rest, actual[off..]).captured;
    }
  }

  lemma FoundSomewhere(s: string, text: string, k: nat)
    requires k <= |s| && text <= s[k..]
    ensures Find(s, text).Some? && Find(s, text).value <= k
  {}

  // ---- captures by name ----

  predicate Distinct(names: seq<string>) {
    forall i, j | 0 <= i < j < |names| :: names[i] != names[j]
  }

  lemma {:induction false} InsertLooksUp(m: map<string, string>, bs: seq<Binding>, i: nat)
    requires i < |bs| && forall j | i < j < |bs| :: bs[j].name != bs[i].name
    ensures bs[i].name in Insert(m, bs) && Insert(m, bs)[bs[i].name] == bs[i].value
    decreases |bs|
  {
    if i == 0 {
      InsertKeeps(m[bs[0].name := bs[0].value], bs[1..], bs[0].name);
    } else {
      assert bs[1..][i - 1] == bs[i];
      InsertLooksUp(m[bs[0].name := bs[0].value], bs[1..], i - 1);
    }
  }

  lemma {:induction false} InsertKeeps(m: map<string, string>, bs: seq<Binding>, k: string)
    requires k in m && forall j | 0 <= j < |bs| :: bs[j].name != k
    ensures k in Insert(m, bs) && Insert(m, bs)[k] == m[k]
    decreases |bs|
  {
    if bs != [] {
      InsertKeeps(m[bs[0].name := bs[0].value], bs[1..], k);
    }
  }

  /** With distinct names, what the parameter table holds after a match is, for every name, its non-empty capture. */
  lemma NamedCaptures(parts: seq<Part>, actual: string, m: map<string, string>, i: nat)
    requires Walk(parts, actual).ok && Distinct(ParamNames(parts)) && i < |ParamNames(parts)|
    ensures var bs := Walk(parts, actual).captured;
      && |bs| == |ParamNames(parts)|
      && ParamNames(parts)[i] in Insert(m, bs)
      && Insert(m, bs)[ParamNames(parts)[i]] == bs[i].value != ""
  {
    var bs := Walk(parts, actual).captured;
    MatchRendersBack(parts, actual);
    assert bs[i] in bs;
    forall j | i < j < |bs|
      ensures bs[j].name != bs[i].name
    {
      assert NamesOf(bs)[j] != NamesOf(bs)[i];
    }
    InsertLooksUp(m, bs, i);
    assert NamesOf(bs)[i] == bs[i].name;
  }

  // ---- whole segments ----

  /** `{name}` and nothing else, as the source tells it: no second opening brace. */
  predicate Whole(t: string) {
    |t| >= 2 && t[0] == '{' && t[|t| - 1] == '}' && '{' !in t[1..|t| - 1]
  }

  function Segment(t: string, actual: string): Outcome {
    if '{' !in t then Outcome(t == actual, [])
    else if Whole(t) then if actual == "" then Outcome(false, []) else Outcome(true, [Binding(t[1..|t| - 1], actual)])
    else Walk(Parts(t, ""), actual)
  }

  method MatchSegment(template: string, actual: string, params: Params) returns (ok: bool)
    modifies params
    ensures ok == Segment(template, actual).ok
    ensures params.bound == Insert(old(params.bound), Segment(template, actual).captured)
  {
    if '{' !in template {
      return template == actual;
    }
    if |template| >= 2 && template[0] == '{' && template[|template| - 1] == '}' && '{' !in template[1..|template| - 1] {
      var name := template[1..|template| - 1];
      if actual == "" {
        return false;
      }
      params.bound := params.bound[name := actual];
      return true;
    }
    ok := MatchMixedSegment(template, actual, params);
  }

  lemma {:induction false} PlainParts(t: string, buf: string)
    requires '{' !in t
    ensures Parts(t, buf) == Flush(buf + t)
    decreases |t|
  {
    if t == "" {
      assert buf + t == buf;
    } else {
      PlainParts(t[1..], buf + [t[0]]);
      assert buf + [t[0]] + t[1..] == buf + t;
    }
  }

  lemma LiteralWalk(text: string, actual: string)
    ensures Walk(Flush(text), actual) == Outcome(text == actual, [])
  {
    if text != "" {
      assert [Literal(text)][1..] == [];
      assert text <= actual ==> actual == text + actual[|text|..];
    }
  }

  /**
   * The two shortcuts say what the general matcher says, except for a whole segment whose name holds a
   * closing brace: there the shortcut captures under that name, and the general matcher never does.
   */
  lemma ShortcutsAgree(t: string, actual: string)
    ensures Segment(t, actual) == Walk(Parts(t, ""), actual) <==>
            !Whole(t) || '}' !in t[1..|t| - 1] || actual == ""
  {
    if '{' !in t {
      PlainParts(t, "");
      assert "" + t == t;
      LiteralWalk(t, actual);
    } else if Whole(t) {
      WholeParts(t, actual);
    }
  }

  lemma WholeParts(t: string, actual: string)
    requires Whole(t)
    ensures Segment(t, actual) == Walk(Parts(t, ""), actual) <==> '}' !in t[1..|t| - 1] || actual == ""
  {
    var name := t[1..|t| - 1];
    if '}' !in name {
      BraceEndIs(t, |t| - 1);
      assert t[|t|..] == "";
      assert Parts(t, "") == [Param(name)];
    } else {
      var j := EarlyBrace(t);
      assert |t[1..j]| < |name|;
      var parts := [Param(t[1..j]), Literal(t[j + 1..])];
      assert Walk(parts, actual).captured != [] ==> Walk(parts, actual).captured[0].name == t[1..j];
      assert actual == "" ==> Find(actual, t[j + 1..]).None?;
    }
  }

  lemma EarlyBrace(t: string) returns (j: nat)
    requires Whole(t) && '}' in t[1..|t| - 1]
    ensures 1 <= j < |t| - 1 && Parts(t, "") == [Param(t[1..j]), Literal(t[j + 1..])]
  {
    var name := t[1..|t| - 1];
    var k := IndexOfChar(name, '}').value;
    j := k + 1;
    assert t[j] == name[k];
    assert t[1..j] == name[..k];
    AfterEarly(t, name, k);
    TwoParts(t, j, t[k + 2..]);
  }

  lemma TwoParts(t: string, j: nat, after: string)
    requires 1 <= j < |t| && t[0] == '{' && t[j] == '}' && '}' !in t[1..j]
    requires after == t[j + 1..] && after != "" && '{' !in after
    ensures Parts(t, "") == [Param(t[1..j]), Literal(after)]
  {
    OpensWith(t, j);
    PlainParts(after, "");
    assert "" + after == after;
    assert Flush(after) == [Literal(after)];
  }

  lemma AfterEarly(t: string, name: string, k: nat)
    requires Whole(t) && name == t[1..|t| - 1] && k < |name|
    ensures '{' !in t[k + 2..] && t[k + 2..] != ""
  {
    assert t[k + 2..] == name[k + 1..] + "}";
  }

  // ---- whole paths ----

  /** Percent-decoding, left as a parameter, applies only to segments with a percent sign. */
  function Decoded(segment: string, decode: string -> string): string {
    if '%' in segment then decode(segment) else segment
  }

  /** The captures of a list of segments, none when a segment does not match. */
  function Captures(templates: seq<string>, actuals: seq<string>, decode: string -> string): Option<seq<Binding>>
    requires |templates| == |actuals|
    decreases |templates|
  {
    if templates == [] then Some([])
    else
      var first := Segment(templates[0], Decoded(actuals[0], decode));
      var rest := Captures(templates[1..], actuals[1..], decode);
      if first.ok && rest.Some? then Some(first.captured + rest.value) else None
  }

  function Slashes(s: string): nat {
    Count(s, '/')
  }

  function MatchedPath(template: string, actual: string, decode: string -> string): Option<seq<Binding>> {
    SplitLength(template, '/');
    SplitLength(actual, '/');
    if Slashes(template) != Slashes(actual) then None
    else Captures(Split(template, '/'), Split(actual, '/'), decode)
  }

  function Prefixed(done: seq<Binding>, rest: Option<seq<Binding>>): Option<seq<Binding>> {
    if rest.Some? then Some(done + rest.value) else None
  }

  /** One more segment of a path. */
  lemma OneSegmentMore(ts: seq<string>, segments: seq<string>, i: nat, done: seq<Binding>, decode: string -> string)
    requires i < |ts| == |segments|
    ensures var s := Segment(ts[i], Decoded(segments[i], decode));
      Prefixed(done, Captures(ts[i..], segments[i..], decode)) ==
      if s.ok then Prefixed(done + s.captured, Captures(ts[i + 1..], segments[i + 1..], decode)) else None
  {
    assert ts[i..][1..] == ts[i + 1..] && segments[i..][1..] == segments[i + 1..];
    var s := Segment(ts[i], Decoded(segments[i], decode));
    var rest := Captures(ts[i + 1..], segments[i + 1..], decode);
    if rest.Some? {
      assert done + (s.captured + rest.value) == done + s.captured + rest.value;
    }
  }

  method MatchTemplate(template: string, actual: string, decode: string -> string)
    returns (r: Option<map<string, string>>)
    ensures r == match MatchedPath(template, actual, decode)
                 case Some(bs) => Some(Insert(map[], bs))
                 case None => None
  {
    if Slashes(template) != Slashes(actual) {
      return None;
    }
    SplitLength(template, '/');
    SplitLength(actual, '/');
    r := MatchSegments(Split(template, '/'), Split(actual, '/'), decode);
  }

  method MatchSegments(ts: seq<string>, segments: seq<string>, decode: string -> string)
    returns (r: Option<map<string, string>>)
    requires |ts| == |segments|
    ensures r == match Captures(ts, segments, decode)
                 case Some(bs) => Some(Insert(map[], bs))
                 case None => None
  {
    var params := new Params();
    ghost var done: seq<Binding> := [];
    ghost var whole := Captures(ts, segments, decode);
    assert ts[0..] == ts && segments[0..] == segments;
    assert whole == Prefixed([], whole) by {
      assert whole.Some? ==> [] + whole.value == whole.value;
    }
    for i := 0 to |ts|
      invariant fresh(params) && params.bound == Insert(map[], done)
      invariant whole == Prefixed(done, Captures(ts[i..], segments[i..], decode))
    {
      OneSegmentMore(ts, segments, i, done, decode);
      var decoded := segments[i];
      if '%' in decoded {
        decoded := decode(decoded);
      }
      var ok := MatchSegment(ts[i], decoded, params);
      if !ok {
        return None;
      }
      ghost var more := Segment(ts[i], decoded).captured;
      InsertJoins(map[], done, more);
      done := done + more;
    }
    assert ts[|ts|..] == [] && done + [] == done;
    return Some(params.bound);
  }

  /** A path matches exactly when it has as many segments as the template and each of them matches. */
  lemma {:induction false} CapturesAll(templates: seq<string>, actuals: seq<string>, decode: string -> string)
    requires |templates| == |actuals|
    ensures Captures(templates, actuals, decode).Some? <==>
            forall i | 0 <= i < |templates| :: Segment(templates[i], Decoded(actuals[i], decode)).ok
    decreases |templates|
  {
    if templates != [] {
      CapturesAll(templates[1..], actuals[1..], decode);
      assert forall i | 0 < i < |templates| :: templates[i] == templates[1..][i - 1]
                && actuals[i] == actuals[1..][i - 1];
      assert forall i | 0 <= i < |templates[1..]| :: templates[1..][i] == templates[i + 1]
                && actuals[1..][i] == actuals[i + 1];
    }
  }

  lemma PathMatches(template: string, actual: string, decode: string -> string)
    ensures var ts, segments := Split(template, '/'), Split(actual, '/');
      MatchedPath(template, actual, decode).Some? <==>
      |ts| == |segments| && forall i | 0 <= i < |ts| :: Segment(ts[i], Decoded(segments[i], decode)).ok
  {
    SplitLength(template, '/');
    SplitLength(actual, '/');
    if Slashes(template) == Slashes(actual) {
      CapturesAll(Split(template, '/'), Split(actual, '/'), decode);
    }
  }
}
