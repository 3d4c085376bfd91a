/** Choosing the content type of a response from the `Accept` header (RFC 9110 section 12.5.1, without specificity). */
module Negotiation {
  import opened Strings

  datatype Choice = Selected(key: string) | NotAcceptable(declared: seq<string>)

  /** A media range with its quality; `at` is its place in the header, which a stable sort respects. */
  datatype Range = Range(text: string, q: real, at: nat)

  const FALLBACK := "application/json"

  // ---- media types ----

  /** Without parameters, trimmed. */
  function Strip(media: string): string {
    Trim(Split(media, ';')[0])
  }

  /** Shaped like `type/subtype`. */
  predicate Plausible(key: string) {
    var bare := Strip(key);
    match IndexOfChar(bare, '/')
    case None => false
    case Some(i) => Trim(bare[..i]) != "" && Trim(bare[i + 1..]) != ""
  }

  function PlausibleKeys(keys: seq<string>): (r: seq<string>)
    ensures forall k :: k in r <==> k in keys && Plausible(k)
  {
    if keys == [] then []
    else
      var rest := PlausibleKeys(keys[1..]);
      assert keys == [keys[0]] + keys[1..];
      if Plausible(keys[0]) then [keys[0]] + rest else rest
  }

  // ---- the header ----

  /** The last parameter `q=` that parses stands. */
  function Quality(params: seq<string>, q: real, parse: string -> Option<real>): real
    decreases |params|
  {
    if params == [] then q
    else
      var p := Trim(params[0]);
      Quality(params[1..], if StartsWith(p, "q=") && parse(p[2..]).Some? then parse(p[2..]).value else q, parse)
  }

  function ParseEntry(entry: string, at: nat, parse: string -> Option<real>): Option<Range> {
    if Trim(entry) == "" then None
    else
      var parts := Split(Trim(entry), ';');
      Some(Range(Trim(parts[0]), Quality(parts[1..], 1.0, parse), at))
  }

  method ParseAcceptEntry(entry: string, at: nat, parse: string -> Option<real>) returns (r: Option<Range>)
    ensures r == ParseEntry(entry, at, parse)
  {
    var trimmed := Trim(entry);
    if trimmed == "" {
      return None;
    }
    var parts := Split(trimmed, ';');
    var q := 1.0;
    for i := 1 to |parts|
      invariant Quality(parts[1..], 1.0, parse) == Quality(parts[i..], q, parse)
    {
      assert parts[i..][1..] == parts[i + 1..];
      var p := Trim(parts[i]);
      if StartsWith(p, "q=") {
        var v := parse(p[2..]);
        if v.Some? {
          q := v.value;
        }
      }
    }
    assert parts[|parts|..] == [];
    return Some(Range(Trim(parts[0]), q, at));
  }

  /** The ranges of the header with a positive quality, in header order. */
  function Ranges(entries: seq<string>, at: nat, parse: string -> Option<real>): (rs: seq<Range>)
    ensures forall i | 0 <= i < |rs| :: at <= rs[i].at && rs[i].q > 0.0
    ensures forall i, j | 0 <= i < j < |rs| :: rs[i].at < rs[j].at
    decreases |entries|
  {
    if entries == [] then []
    else
      var first := ParseEntry(entries[0], at, parse);
      var rest := Ranges(entries[1..], at + 1, parse);
      if first.Some? && first.value.q > 0.0 then [first.value] + rest else rest
  }

  // ---- ranking ----

  /** Ahead in the ranking: a higher quality, or the same quality and earlier in the header. */
  predicate Ahead(a: Range, b: Range) {
    a.q > b.q || (a.q == b.q && a.at < b.at)
  }

  function Placed(x: Range, rs: seq<Range>): seq<Range> {
    if rs == [] || x.q >= rs[0].q then [x] + rs else [rs[0]] + Placed(x, rs[1..])
  }

  /** The stable sort by descending quality. */
  function Ranked(rs: seq<Range>): seq<Range> {
    if rs == [] then [] else Placed(rs[0], Ranked(rs[1..]))
  }

  predicate InOrder(rs: seq<Range>) {
    forall i, j | 0 <= i < j < |rs| :: Ahead(rs[i], rs[j])
  }

  lemma {:induction false} PlacedKeeps(x: Range, rs: seq<Range>)
    ensures forall r :: r in Placed(x, rs) <==> r == x || r in rs
    decreases |rs|
  {
    if rs != [] && x.q < rs[0].q {
      PlacedKeeps(x, rs[1..]);
      assert rs == [rs[0]] + rs[1..];
    }
  }

  lemma {:induction false} PlacedInOrder(x: Range, rs: seq<Range>)
    requires InOrder(rs) && forall i | 0 <= i < |rs| :: x.at < rs[i].at
    ensures InOrder(Placed(x, rs))
    decreases |rs|
  {
    if rs != [] {
      if x.q < rs[0].q {
        PlacedInOrder(x, rs[1..]);
        PlacedKeeps(x, rs[1..]);
        var rest := Placed(x, rs[1..]);
        forall j | 0 <= j < |rest|
          ensures Ahead(rs[0], rest[j])
        {
          assert rest[j] in rest;
        }
      } else {
        forall j | 0 <= j < |rs|
          ensures Ahead(x, rs[j])
        {
          assert j > 0 ==> Ahead(rs[0], rs[j]);
        }
      }
    }
  }

  lemma {:induction false} RankedInOrder(rs: seq<Range>)
    requires forall i, j | 0 <= i < j < |rs| :: rs[i].at < rs[j].at
    ensures forall r :: r in Ranked(rs) <==> r in rs
    ensures InOrder(Ranked(rs))
  {
    if rs != [] {
      RankedInOrder(rs[1..]);
      var rest := Ranked(rs[1..]);
      PlacedKeeps(rs[0], rest);
      assert rs == [rs[0]] + rs[1..];
      forall i | 0 <= i < |rest|
        ensures rs[0].at < rest[i].at
      {
        assert rest[i] in rs[1..];
      }
      PlacedInOrder(rs[0], rest);
    }
  }

  // ---- picking a key for a range ----

  predicate IsPrefixRange(range: string) {
    EndsWith(range, "/*")
  }

  predicate Matches(range: string, key: string) {
    range == "*/*" || Strip(key) == range || (IsPrefixRange(range) && StartsWith(Strip(key), range[..|range| - 1]))
  }

  function FirstExact(keys: seq<string>, range: string): (r: Option<string>)
    ensures r.Some? <==> exists k | k in keys :: Strip(k) == range
    ensures r.Some? ==> r.value in keys && Strip(r.value) == range
  {
    if keys == [] then None
    else
      assert keys == [keys[0]] + keys[1..];
      if Strip(keys[0]) == range then Some(keys[0]) else FirstExact(keys[1..], range)
  }

  function FirstWithPrefix(keys: seq<string>, prefix: string): (r: Option<string>)
    ensures r.Some? <==> exists k | k in keys :: StartsWith(Strip(k), prefix)
    ensures r.Some? ==> r.value in keys && StartsWith(Strip(r.value), prefix)
  {
    if keys == [] then None
    else
      assert keys == [keys[0]] + keys[1..];
      if StartsWith(Strip(keys[0]), prefix) then Some(keys[0]) else FirstWithPrefix(keys[1..], prefix)
  }

  /** The key the source takes for a range, among plausible keys. */
  function Pick(keys: seq<string>, range: string): Option<string> {
    if range == "*/*" then if keys == [] then None else Some(keys[0])
    else if FirstExact(keys, range).Some? then FirstExact(keys, range)
    else if IsPrefixRange(range) then FirstWithPrefix(keys, range[..|range| - 1])
    else None
  }

  function FirstMatching(keys: seq<string>, range: string): Option<string> {
    if keys == [] then None
    else if Matches(range, keys[0]) then Some(keys[0])
    else FirstMatching(keys[1..], range)
  }

  /** A key is picked exactly when one matches, and the one picked matches. */
  lemma PickMatches(keys: seq<string>, range: string)
    ensures Pick(keys, range).Some? <==> exists k | k in keys :: Matches(range, k)
    ensures Pick(keys, range).Some? ==> Pick(keys, range).value in keys && Matches(range, Pick(keys, range).value)
  {
    if range == "*/*" && keys != [] {
      assert keys[0] in keys && Matches(range, keys[0]);
    }
  }

  /** A key at `i` falls under the wildcard range, and the first key written as that very range comes later. */
  predicate Overtakes(keys: seq<string>, range: string, i: nat, j: nat) {
    && i < j < |keys| && IsPrefixRange(range)
    && StartsWith(Strip(keys[i]), range[..|range| - 1])
    && Strip(keys[j]) == range
    && forall k | 0 <= k <= i :: Strip(keys[k]) != range
  }

  predicate Overtaken(keys: seq<string>, range: string) {
    exists i, j | 0 <= i < j < |keys| :: Overtakes(keys, range, i, j)
  }

  /**
   * The key picked is the first one declared that matches, unless a key is itself written as the wildcard
   * range and an earlier one falls under it.
   */
  lemma PickIsFirst(keys: seq<string>, range: string)
    ensures Pick(keys, range) == FirstMatching(keys, range) <==> range == "*/*" || !Overtaken(keys, range)
  {
    if range == "*/*" {
      if keys != [] {
        assert Matches(range, keys[0]);
      }
    } else if FirstExact(keys, range).None? {
      PickWithoutExact(keys, range);
      forall i, j | 0 <= i < j < |keys|
        ensures !Overtakes(keys, range, i, j)
      {
        assert keys[j] in keys;
      }
    } else {
      ExactIsFirst(keys, range);
    }
  }

  lemma {:induction false} ExactIsFirst(keys: seq<string>, range: string)
    requires range != "*/*" && FirstExact(keys, range).Some?
    ensures FirstExact(keys, range) == FirstMatching(keys, range) <==> !Overtaken(keys, range)
  {
    var tail := keys[1..];
    if Strip(keys[0]) == range {
      assert forall i, j | 0 <= i < j < |keys| :: !Overtakes(keys, range, i, j);
    } else if Matches(range, keys[0]) {
      var k :| k in keys && Strip(k) == range;
      var j :| 0 <= j < |keys| && keys[j] == k;
      assert Overtakes(keys, range, 0, j);
    } else {
      ExactIsFirst(tail, range);
      TailOvertaken(keys, range);
    }
  }

  lemma TailOvertaken(keys: seq<string>, range: string)
    requires keys != [] && !Matches(range, keys[0])
    ensures Overtaken(keys, range) <==> Overtaken(keys[1..], range)
  {
    var tail := keys[1..];
    if i, j :| 0 <= i < j < |keys| && Overtakes(keys, range, i, j) {
      assert i > 0;
      assert forall k | 0 <= k < |tail| :: tail[k] == keys[k + 1];
      assert Overtakes(tail, range, i - 1, j - 1);
    }
    if i, j :| 0 <= i < j < |tail| && Overtakes(tail, range, i, j) {
      assert forall k | 0 < k < |keys| :: keys[k] == tail[k - 1];
      assert Overtakes(keys, range, i + 1, j + 1);
    }
  }

  lemma {:induction false} PickWithoutExact(keys: seq<string>, range: string)
    requires range != "*/*" && FirstExact(keys, range).None?
    ensures Pick(keys, range) == FirstMatching(keys, range)
  {
    if keys != [] {
      assert keys == [keys[0]] + keys[1..];
      PickWithoutExact(keys[1..], range);
    }
  }

  // ---- negotiation ----

  function FirstPick(keys: seq<string>, rs: seq<Range>): Option<string>
    decreases |rs|
  {
    if rs == [] then None
    else if Pick(keys, rs[0].text).Some? then Pick(keys, rs[0].text)
    else FirstPick(keys, rs[1..])
  }

  function Negotiated(declared: seq<string>, accept: Option<string>, parse: string -> Option<real>): Choice {
    var keys := PlausibleKeys(declared);
    if accept.None? then Selected(if keys == [] then FALLBACK else keys[0])
    else
      var pick := FirstPick(keys, Ranked(Ranges(Split(accept.value, ','), 0, parse)));
      if pick.Some? then Selected(pick.value)
      else if keys == [] then Selected(FALLBACK)
      else NotAcceptable(keys)
  }

  method Negotiate(declared: seq<string>, accept: Option<string>, parse: string -> Option<real>) returns (r: Choice)
    ensures r == Negotiated(declared, accept, parse)
  {
    var keys := PlausibleKeys(declared);
    if accept.None? {
      return Selected(if keys == [] then FALLBACK else keys[0]);
    }
    var entries := Split(accept.value, ',');
    var ranges: seq<Range> := [];
    var i := |entries|;
    assert entries[|entries|..] == [];
    while i > 0
      invariant 0 <= i <= |entries|
      invariant ranges == Ranked(Ranges(entries[i..], i, parse))
    {
      i := i - 1;
      assert entries[i..][1..] == entries[i + 1..];
      var range := ParseAcceptEntry(entries[i], i, parse);
      if range.Some? && range.value.q > 0.0 {
        ranges := Place(range.value, ranges);
      }
    }
    assert entries[0..] == entries;
    assert ranges[0..] == ranges;
    for k := 0 to |ranges|
      invariant FirstPick(keys, ranges) == FirstPick(keys, ranges[k..])
    {
      assert ranges[k..][1..] == ranges[k + 1..];
      var pick := Pick(keys, ranges[k].text);
      if pick.Some? {
        return Selected(pick.value);
      }
    }
    assert ranges[|ranges|..] == [];
    if keys == [] {
      return Selected(FALLBACK);
    }
    return NotAcceptable(keys);
  }

  method Place(x: Range, rs: seq<Range>) returns (r: seq<Range>)
    ensures r == Placed(x, rs)
  {
    var k := 0;
    assert rs[0..] == rs;
    while k < |rs| && x.q < rs[k].q
      invariant k <= |rs|
      invariant Placed(x, rs) == rs[..k] + Placed(x, rs[k..])
    {
      assert rs[k..][1..] == rs[k + 1..];
      assert rs[..k] + [rs[k]] == rs[..k + 1];
      k := k + 1;
    }
    r := rs[..k] + [x] + rs[k..];
  }

  lemma {:induction false} FirstPickIsBest(keys: seq<string>, rs: seq<Range>)
    ensures FirstPick(keys, rs).None? <==> forall r | r in rs :: Pick(keys, r.text).None?
    ensures FirstPick(keys, rs).Some? ==>
              exists i | 0 <= i < |rs| :: Pick(keys, rs[i].text) == FirstPick(keys, rs) &&
                forall j | 0 <= j < i :: Pick(keys, rs[j].text).None?
    decreases |rs|
  {
    if rs != [] {
      assert rs == [rs[0]] + rs[1..];
      if Pick(keys, rs[0].text).None? {
        FirstPickIsBest(keys, rs[1..]);
        if FirstPick(keys, rs).Some? {
          var i :| 0 <= i < |rs[1..]| && Pick(keys, rs[1..][i].text) == FirstPick(keys, rs[1..]) &&
            forall j | 0 <= j < i :: Pick(keys, rs[1..][j].text).None?;
          forall j | 0 <= j < i + 1
            ensures Pick(keys, rs[j].text).None?
          {
            assert j > 0 ==> rs[j] == rs[1..][j - 1];
          }
          assert rs[i + 1] == rs[1..][i];
        }
      }
    }
  }

  /**
   * Under a present header, the key selected is that of the best range that matches anything: of a higher quality
   * than every other such range, or of the same quality and earlier in the header.
   */
  lemma SelectionIsOptimal(declared: seq<string>, accept: string, parse: string -> Option<real>) returns (best: Range)
    requires var rs := Ranges(Split(accept, ','), 0, parse);
      exists r | r in rs :: Pick(PlausibleKeys(declared), r.text).Some?
    ensures var keys := PlausibleKeys(declared); var rs := Ranges(Split(accept, ','), 0, parse);
      && best in rs && best.q > 0.0 && Pick(keys, best.text).Some?
      && Negotiated(declared, Some(accept), parse) == Selected(Pick(keys, best.text).value)
      && (forall r | r in rs && Pick(keys, r.text).Some? :: r == best || Ahead(best, r))
  {
    var keys := PlausibleKeys(declared);
    var rs := Ranges(Split(accept, ','), 0, parse);
    var ranked := Ranked(rs);
    RankedInOrder(rs);
    FirstPickIsBest(keys, ranked);
    var i :| 0 <= i < |ranked| && Pick(keys, ranked[i].text) == FirstPick(keys, ranked) &&
      forall j | 0 <= j < i :: Pick(keys, ranked[j].text).None?;
    best := ranked[i];
    assert best in ranked;
    forall r | r in rs && Pick(keys, r.text).Some?
      ensures r == best || Ahead(best, r)
    {
      RankedBehind(keys, ranked, i, r);
    }
  }

  lemma RankedBehind(keys: seq<string>, ranked: seq<Range>, i: nat, r: Range)
    requires InOrder(ranked) && i < |ranked| && r in ranked && Pick(keys, r.text).Some?
    requires forall j | 0 <= j < i :: Pick(keys, ranked[j].text).None?
    ensures r == ranked[i] || Ahead(ranked[i], r)
  {
    var j :| 0 <= j < |ranked| && ranked[j] == r;
    assert j >= i;
  }

  /** Not acceptable: a header is there, a plausible key is declared, and no range of positive quality matches one. */
  lemma NotAcceptableExactly(declared: seq<string>, accept: Option<string>, parse: string -> Option<real>)
    ensures Negotiated(declared, accept, parse).NotAcceptable? <==>
              && accept.Some?
              && (exists k | k in declared :: Plausible(k))
              && (forall r, k | r in Ranges(Split(accept.value, ','), 0, parse) && k in declared && Plausible(k) ::
                    !Matches(r.text, k))
    ensures Negotiated(declared, accept, parse).NotAcceptable? ==>
              Negotiated(declared, accept, parse).declared == PlausibleKeys(declared)
  {
    var keys := PlausibleKeys(declared);
    if accept.Some? {
      var rs := Ranges(Split(accept.value, ','), 0, parse);
      RankedInOrder(rs);
      FirstPickIsBest(keys, Ranked(rs));
      forall r | r in rs
        ensures Pick(keys, r.text).None? <==> forall k | k in declared && Plausible(k) :: !Matches(r.text, k)
      {
        PickMatches(keys, r.text);
      }
      if keys != [] {
        assert keys[0] in keys;
      }
    }
  }

  // ---- the lookup that follows ----

  /** `content.get(key)`. */
  function Get<M>(content: seq<(string, M)>, key: string): Option<M> {
    if content == [] then None else if content[0].0 == key then Some(content[0].1) else Get(content[1..], key)
  }

  function FirstStripped<M>(content: seq<(string, M)>, contentType: string): Option<M> {
    if content == [] then None
    else if Plausible(content[0].0) && Strip(content[0].0) == contentType then Some(content[0].1)
    else FirstStripped(content[1..], contentType)
  }

  function Lookup<M>(content: seq<(string, M)>, contentType: string): Option<M> {
    if Plausible(contentType) && Get(content, contentType).Some? then Get(content, contentType)
    else FirstStripped(content, contentType)
  }

  function KeysOf<M>(content: seq<(string, M)>): seq<string> {
    seq(|content|, i requires 0 <= i < |content| => content[i].0)
  }

  lemma {:induction false} GetFinds<M>(content: seq<(string, M)>, key: string)
    ensures Get(content, key).Some? <==> key in KeysOf(content)
  {
    if content != [] {
      GetFinds(content[1..], key);
      assert KeysOf(content) == [content[0].0] + KeysOf(content[1..]);
    }
  }

  /** Whatever is selected among declared plausible keys is found by the lookup, under that very key. */
  lemma SelectedIsFound<M>(content: seq<(string, M)>, accept: Option<string>, parse: string -> Option<real>)
    requires Negotiated(KeysOf(content), accept, parse).Selected? && PlausibleKeys(KeysOf(content)) != []
    ensures var key := Negotiated(KeysOf(content), accept, parse).key;
      key in KeysOf(content) && Plausible(key) && Lookup(content, key) == Get(content, key)
          && Lookup(content, key).Some?
  {
    var declared := KeysOf(content);
    var keys := PlausibleKeys(declared);
    if accept.None? {
      assert keys[0] in keys;
      GetFinds(content, keys[0]);
    } else {
      var rs := Ranges(Split(accept.value, ','), 0, parse);
      FirstPickIsBest(keys, Ranked(rs));
      var i :| 0 <= i < |Ranked(rs)| && Pick(keys, Ranked(rs)[i].text) == FirstPick(keys, Ranked(rs));
      PickMatches(keys, Ranked(rs)[i].text);
      GetFinds(content, Pick(keys, Ranked(rs)[i].text).value);
    }
  }
}
