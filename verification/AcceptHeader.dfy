/** What negotiation selects, read off the header and the declared keys as they are written. */
module AcceptHeader {
  import opened Strings
  import opened Negotiation

  // ---- texts ----

  predicate Space(c: char) {
    c as int in {9, 10, 11, 12, 13, 32}
  }

  predicate Blank(s: string) {
    forall i | 0 <= i < |s| :: Space(s[i])
  }

  /** `s[i..j]` is all of `s` but the white space around it. */
  predicate Core(s: string, i: nat, j: nat) {
    && i <= j <= |s| && Blank(s[..i]) && Blank(s[j..])
    && (i < j ==> !Space(s[i]) && !Space(s[j - 1]))
  }

  predicate TrimsTo(s: string, t: string) {
    exists i, j | 0 <= i <= j <= |s| :: Core(s, i, j) && s[i..j] == t
  }

  /** The text before the first `sep`, or all of it. */
  predicate Before(s: string, sep: char, p: string) {
    StartsWith(s, p) && sep !in p && (p == s || s[|p|] == sep)
  }

  /** A media type without its parameters. */
  predicate BareOf(media: string, bare: string) {
    exists k | 0 <= k <= |media| :: Before(media, ';', media[..k]) && TrimsTo(media[..k], bare)
  }

  /** Shaped like `type/subtype`, neither of them blank. */
  predicate ProperKey(key: string) {
    exists i | 0 <= i < |Strip(key)| :: ProperSlash(Strip(key), i)
  }

  predicate ProperSlash(bare: string, i: nat) {
    i < |bare| && Before(bare, '/', bare[..i]) && !Blank(bare[..i]) && !Blank(bare[i + 1..])
  }

  lemma SpaceIs(c: char)
    ensures Space(c) <==> IsSpace(c)
  {
  }

  lemma BlankJoin(a: string, b: string)
    ensures Blank(a + b) <==> Blank(a) && Blank(b)
  {
    var s := a + b;
    assert forall i | 0 <= i < |a| :: a[i] == s[i];
    assert forall i | 0 <= i < |b| :: b[i] == s[|a| + i];
  }

  lemma {:induction false} StartOf(s: string) returns (i: nat)
    ensures i <= |s| && Blank(s[..i]) && TrimStart(s) == s[i..] && (i < |s| ==> !Space(s[i]))
  {
    if s != "" && IsSpace(s[0]) {
      var rest := s[1..];
      var j := StartOf(rest);
      i := j + 1;
      assert s[..i] == [s[0]] + rest[..j] && s[i..] == rest[j..];
      BlankJoin([s[0]], rest[..j]);
    } else {
      i := 0;
      assert s[0..] == s;
    }
  }

  lemma {:induction false} EndOf(s: string) returns (j: nat)
    ensures j <= |s| && Blank(s[j..]) && TrimEnd(s) == s[..j] && (0 < j ==> !Space(s[j - 1]))
  {
    if s != "" && IsSpace(s[|s| - 1]) {
      var rest := s[..|s| - 1];
      j := EndOf(rest);
      assert s[j..] == rest[j..] + [s[|s| - 1]] && s[..j] == rest[..j];
      BlankJoin(rest[j..], [s[|s| - 1]]);
    } else {
      j := |s|;
      assert s[..j] == s;
    }
  }

  lemma BlankAround(s: string, i: nat, j: nat, m: nat)
    requires Core(s, i, j) && m < |s| && !(i <= m < j)
    ensures Space(s[m])
  {
    if m < i {
      assert s[..i][m] == s[m];
    } else {
      assert s[j..][m - j] == s[m];
    }
  }

  lemma InsideCore(s: string, i: nat, j: nat, m: nat)
    requires Core(s, i, j) && m < |s| && !Space(s[m])
    ensures i <= m < j
  {
    if !(i <= m < j) {
      BlankAround(s, i, j, m);
    }
  }

  lemma CoreIsOne(s: string, i: nat, j: nat, k: nat, l: nat)
    requires Core(s, i, j) && Core(s, k, l)
    ensures i < j ==> k < l && i == k && j == l
  {
    if i < j {
      InsideCore(s, k, l, i);
      InsideCore(s, k, l, j - 1);
      InsideCore(s, i, j, k);
      InsideCore(s, i, j, l - 1);
    }
  }

  lemma TrimCore(s: string) returns (i: nat, j: nat)
    ensures Core(s, i, j) && s[i..j] == Trim(s)
  {
    i := StartOf(s);
    var rest := s[i..];
    var n := EndOf(rest);
    j := i + n;
    assert s[j..] == rest[n..];
    assert s[i..j] == rest[..n];
    if 0 < n {
      assert s[j - 1] == rest[n - 1];
    }
  }

  /** Trimming takes off the white space around a text, and nothing else. */
  lemma TrimIs(s: string)
    ensures forall t :: TrimsTo(s, t) <==> t == Trim(s)
  {
    var i, j := TrimCore(s);
    forall t | TrimsTo(s, t)
      ensures t == Trim(s)
    {
      var k, l :| 0 <= k <= l <= |s| && Core(s, k, l) && s[k..l] == t;
      CoreIsOne(s, k, l, i, j);
      CoreIsOne(s, i, j, k, l);
    }
  }

  lemma BlankIs(s: string)
    ensures Trim(s) == "" <==> Blank(s)
  {
    var i, j := TrimCore(s);
    if i == j {
      forall m | 0 <= m < |s|
        ensures Space(s[m])
      {
        BlankAround(s, i, j, m);
      }
    }
  }

  lemma {:induction false} FirstPart(s: string, sep: char)
    ensures Before(s, sep, Split(s, sep)[0])
    ensures forall p :: Before(s, sep, p) <==> p == Split(s, sep)[0]
  {
    forall p | Before(s, sep, p)
      ensures p == Split(s, sep)[0]
    {
      if p == s {
        SplitPlain(s, sep);
      } else {
        assert s == p + [sep] + s[|p| + 1..];
        SplitFirst(p, s[|p| + 1..], sep);
      }
    }
    match IndexOfChar(s, sep)
    case Some(k) => assert Before(s, sep, s[..k]);
    case None => assert Before(s, sep, s);
  }

  lemma StripIs(media: string)
    ensures forall bare :: BareOf(media, bare) <==> bare == Strip(media)
  {
    FirstPart(media, ';');
    var head := Split(media, ';')[0];
    TrimIs(head);
    assert media[..|head|] == head;
  }

  lemma PlausibleIs(key: string)
    ensures ProperKey(key) <==> Plausible(key)
  {
    var bare := Strip(key);
    match IndexOfChar(bare, '/')
    case Some(i) =>
      BlankIs(bare[..i]);
      BlankIs(bare[i + 1..]);
      assert Before(bare, '/', bare[..i]);
      assert ProperSlash(bare, i) <==> Plausible(key);
      if k :| 0 <= k < |bare| && ProperSlash(bare, k) {
        OneBefore(bare, '/', i, k);
      }
    case None =>
      forall k | 0 <= k < |bare|
        ensures !ProperSlash(bare, k)
      {
        assert bare[k] in bare;
      }
  }

  lemma OneBefore(s: string, sep: char, i: nat, j: nat)
    requires i < |s| && j < |s| && Before(s, sep, s[..i]) && Before(s, sep, s[..j])
    ensures i == j
  {
    assert s[..i] != s && s[..j] != s;
    FirstPart(s, sep);
    assert |s[..i]| == |s[..j]|;
  }

  // ---- keys ----

  /** The declared keys that are shaped like media types, in order. */
  predicate Filters(declared: seq<string>, keys: seq<string>)
    decreases |declared|
  {
    if declared == [] then keys == []
    else if ProperKey(declared[0]) then keys != [] && keys[0] == declared[0] && Filters(declared[1..], keys[1..])
    else Filters(declared[1..], keys)
  }

  lemma {:induction false} PlausibleKeysFilter(declared: seq<string>)
    ensures Filters(declared, PlausibleKeys(declared))
    ensures PlausibleKeys(declared) == [] <==> forall i | 0 <= i < |declared| :: !ProperKey(declared[i])
    decreases |declared|
  {
    if declared != [] {
      PlausibleIs(declared[0]);
      PlausibleKeysFilter(declared[1..]);
      assert forall i | 0 < i < |declared| :: declared[i] == declared[1..][i - 1];
      assert forall i | 0 <= i < |declared[1..]| :: declared[1..][i] == declared[i + 1];
    }
  }

  /** What a key is looked for by: anything, the very range, or the type of a wildcard. */
  datatype Wish = Any | Written(range: string) | Under(prefix: string)

  predicate Fits(wish: Wish, key: string) {
    match wish
    case Any => true
    case Written(range) => Strip(key) == range
    case Under(prefix) => StartsWith(Strip(key), prefix)
  }

  /** Key `n` is the first proper one that fits. */
  predicate First(declared: seq<string>, wish: Wish, n: nat) {
    && n < |declared| && ProperKey(declared[n]) && Fits(wish, declared[n])
    && forall m | 0 <= m < n && ProperKey(declared[m]) :: !Fits(wish, declared[m])
  }

  predicate NoneFits(declared: seq<string>, wish: Wish) {
    forall m | 0 <= m < |declared| && ProperKey(declared[m]) :: !Fits(wish, declared[m])
  }

  /**
   * A range takes key `n`: the first one of all for the full wildcard; else the first one written as the range is, or
   * if there is none and the range is a wildcard of a type, the first one of that type.
   */
  predicate Takes(declared: seq<string>, range: string, n: nat) {
    if range == "*/*" then First(declared, Any, n)
    else
      || First(declared, Written(range), n)
      || (&& EndsWith(range, "/*") && NoneFits(declared, Written(range))
          && First(declared, Under(range[..|range| - 1]), n))
  }

  lemma FirstLater(declared: seq<string>, wish: Wish, n: nat)
    requires declared != [] && !(ProperKey(declared[0]) && Fits(wish, declared[0]))
    ensures First(declared[1..], wish, n) <==> First(declared, wish, n + 1)
    ensures !First(declared, wish, 0)
  {
    assert forall m | 0 <= m < |declared[1..]| :: declared[1..][m] == declared[m + 1];
    assert forall m | 0 < m < |declared| :: declared[m] == declared[1..][m - 1];
  }

  function FindFirst(keys: seq<string>, wish: Wish): Option<string> {
    if keys == [] then None else if Fits(wish, keys[0]) then Some(keys[0]) else FindFirst(keys[1..], wish)
  }

  ghost predicate FoundFirst(declared: seq<string>, wish: Wish, r: Option<string>) {
    if r.Some? then exists n: nat :: First(declared, wish, n) && r.value == declared[n] else NoneFits(declared, wish)
  }

  lemma OneFirst(declared: seq<string>, wish: Wish, m: nat, n: nat)
    requires First(declared, wish, m)
    ensures !NoneFits(declared, wish)
    ensures First(declared, wish, n) ==> m == n
  {
  }

  lemma {:induction false} FindFirstIs(declared: seq<string>, wish: Wish)
    ensures FoundFirst(declared, wish, FindFirst(PlausibleKeys(declared), wish))
    decreases |declared|
  {
    if declared != [] {
      PlausibleIs(declared[0]);
      if ProperKey(declared[0]) && Fits(wish, declared[0]) {
        assert First(declared, wish, 0);
      } else {
        FindFirstIs(declared[1..], wish);
        var r := FindFirst(PlausibleKeys(declared[1..]), wish);
        assert FindFirst(PlausibleKeys(declared), wish) == r;
        if r.Some? {
          var n: nat :| First(declared[1..], wish, n) && r.value == declared[1..][n];
          FirstLater(declared, wish, n);
        } else {
          assert forall m | 0 < m < |declared| :: declared[m] == declared[1..][m - 1];
        }
      }
    }
  }

  lemma {:induction false} ExactIsFind(keys: seq<string>, range: string)
    ensures FirstExact(keys, range) == FindFirst(keys, Written(range))
  {
    if keys != [] {
      ExactIsFind(keys[1..], range);
    }
  }

  lemma {:induction false} PrefixIsFind(keys: seq<string>, prefix: string)
    ensures FirstWithPrefix(keys, prefix) == FindFirst(keys, Under(prefix))
  {
    if keys != [] {
      PrefixIsFind(keys[1..], prefix);
    }
  }

  ghost predicate PickedIs(declared: seq<string>, range: string, r: Option<string>) {
    if r.Some? then exists n: nat :: Takes(declared, range, n) && r.value == declared[n]
    else forall n: nat :: !Takes(declared, range, n)
  }

  /** What is picked for a range is the key it takes. */
  lemma PickTakes(declared: seq<string>, range: string)
    ensures PickedIs(declared, range, Pick(PlausibleKeys(declared), range))
  {
    var keys := PlausibleKeys(declared);
    if range == "*/*" {
      FindFirstIs(declared, Any);
      assert Pick(keys, range) == FindFirst(keys, Any);
      WishTakes(declared, range, Any);
    } else {
      ExactIsFind(keys, range);
      FindFirstIs(declared, Written(range));
      WishTakes(declared, range, Written(range));
      if FindFirst(keys, Written(range)).None? && EndsWith(range, "/*") {
        var prefix := range[..|range| - 1];
        PrefixIsFind(keys, prefix);
        FindFirstIs(declared, Under(prefix));
        WishTakes(declared, range, Under(prefix));
      }
    }
  }

  /** Which wish decides what a range takes. */
  lemma WishTakes(declared: seq<string>, range: string, wish: Wish)
    requires range == "*/*" <==> wish == Any
    requires wish.Written? ==> wish.range == range
    requires wish.Under? ==>
               && EndsWith(range, "/*") && wish.prefix == range[..|range| - 1] && NoneFits(declared, Written(range))
    ensures forall n: nat | First(declared, wish, n) :: Takes(declared, range, n)
    ensures wish == Any || wish.Under? || !NoneFits(declared, wish) || !EndsWith(range, "/*") ==>
              forall n: nat | Takes(declared, range, n) :: First(declared, wish, n)
    ensures NoneFits(declared, wish) ==> forall n: nat :: !First(declared, wish, n)
  {
    forall n: nat | First(declared, Written(range), n)
      ensures !NoneFits(declared, Written(range))
    {
      OneFirst(declared, Written(range), n, n);
    }
  }

  lemma OneTaken(declared: seq<string>, range: string, m: nat, n: nat)
    requires Takes(declared, range, m) && Takes(declared, range, n)
    ensures m == n
  {
    if range == "*/*" {
      OneFirst(declared, Any, m, n);
    } else if First(declared, Written(range), m) {
      OneFirst(declared, Written(range), m, n);
    } else {
      if First(declared, Written(range), n) {
        OneFirst(declared, Written(range), n, m);
      }
      OneFirst(declared, Under(range[..|range| - 1]), m, n);
    }
  }

  // ---- the header ----

  /** The parameter gives the quality `v`. */
  predicate Gives(param: string, v: real, parse: string -> Option<real>) {
    StartsWith(Trim(param), "q=") && parse(Trim(param)[2..]) == Some(v)
  }

  ghost predicate GivesNone(params: seq<string>, from: nat, parse: string -> Option<real>) {
    forall j, v | from <= j < |params| :: !Gives(params[j], v, parse)
  }

  /** The last parameter that gives a quality, or `start` where none does. */
  ghost predicate LastGiven(params: seq<string>, start: real, q: real, parse: string -> Option<real>) {
    || (exists j: nat :: j < |params| && Gives(params[j], q, parse) && GivesNone(params, j + 1, parse))
    || (q == start && GivesNone(params, 0, parse))
  }

  /** An entry of the header asks for a range with a quality. */
  ghost predicate Asks(entry: string, range: string, q: real, parse: string -> Option<real>) {
    && Trim(entry) != "" && Strip(Trim(entry)) == range
    && LastGiven(Split(Trim(entry), ';')[1..], 1.0, q, parse)
  }

  lemma {:induction false} QualityIsLast(params: seq<string>, start: real, parse: string -> Option<real>)
    ensures forall q :: LastGiven(params, start, q, parse) <==> q == Quality(params, start, parse)
    decreases |params|
  {
    if params != [] {
      var rest, t := params[1..], Trim(params[0]);
      var given := StartsWith(t, "q=") && parse(t[2..]).Some?;
      var next := if given then parse(t[2..]).value else start;
      QualityIsLast(rest, next, parse);
      assert given ==> Gives(params[0], next, parse);
      forall q
        ensures LastGiven(params, start, q, parse) <==> LastGiven(rest, next, q, parse)
      {
        LastLater(params, start, q, parse, next);
      }
    }
  }

  lemma NoneLater(params: seq<string>, from: nat, parse: string -> Option<real>)
    requires params != []
    ensures GivesNone(params[1..], from, parse) <==> GivesNone(params, from + 1, parse)
  {
    assert forall j | 0 <= j < |params[1..]| :: params[1..][j] == params[j + 1];
    assert forall j | 0 < j < |params| :: params[j] == params[1..][j - 1];
  }

  lemma LastLater(params: seq<string>, start: real, q: real, parse: string -> Option<real>, next: real)
    requires params != []
    requires (forall v :: !Gives(params[0], v, parse)) ==> next == start
    requires (exists v :: Gives(params[0], v, parse)) ==> forall v :: Gives(params[0], v, parse) <==> v == next
    ensures LastGiven(params, start, q, parse) <==> LastGiven(params[1..], next, q, parse)
  {
    var rest := params[1..];
    forall j: nat
      ensures GivesNone(rest, j, parse) <==> GivesNone(params, j + 1, parse)
    {
      NoneLater(params, j, parse);
    }
    if j: nat :| j < |params| && Gives(params[j], q, parse) && GivesNone(params, j + 1, parse) {
      if j > 0 {
        assert rest[j - 1] == params[j] && GivesNone(rest, j - 1 + 1, parse);
      } else {
        assert GivesNone(rest, 0, parse) && q == next;
      }
    }
    if j: nat :| j < |rest| && Gives(rest[j], q, parse) && GivesNone(rest, j + 1, parse) {
      assert params[j + 1] == rest[j] && GivesNone(params, j + 1 + 1, parse);
    }
    if q == next && GivesNone(rest, 0, parse) {
      assert GivesNone(params, 1, parse);
      if forall v :: !Gives(params[0], v, parse) {
        assert GivesNone(params, 0, parse);
      } else {
        assert Gives(params[0], q, parse);
      }
    }
  }

  /** An entry is read as the range and quality it asks for. */
  lemma EntryAsks(entry: string, at: nat, parse: string -> Option<real>, range: string, q: real)
    ensures Asks(entry, range, q, parse) <==> ParseEntry(entry, at, parse) == Some(Range(range, q, at))
  {
    QualityIsLast(Split(Trim(entry), ';')[1..], 1.0, parse);
  }

  lemma {:induction false} RangesParse(entries: seq<string>, at: nat, parse: string -> Option<real>, r: Range)
    ensures r in Ranges(entries, at, parse) <==>
              && at <= r.at < at + |entries|
              && ParseEntry(entries[r.at - at], r.at, parse) == Some(r) && 0.0 < r.q
    decreases |entries|
  {
    if entries != [] {
      RangesParse(entries[1..], at + 1, parse, r);
      var first := ParseEntry(entries[0], at, parse);
      assert first.Some? ==> first.value.at == at;
      if at < r.at < at + |entries| {
        assert entries[1..][r.at - at - 1] == entries[r.at - at];
      }
    }
  }

  /** What is ranked is what the entries ask for, each with the place of its entry and not with quality zero. */
  lemma RangesAre(entries: seq<string>, parse: string -> Option<real>, r: Range)
    ensures r in Ranges(entries, 0, parse) <==>
              r.at < |entries| && Asks(entries[r.at], r.text, r.q, parse) && 0.0 < r.q
  {
    RangesParse(entries, 0, parse, r);
    assert r == Range(r.text, r.q, r.at);
    if r.at < |entries| {
      var entry := entries[r.at];
      assert entry == entries[r.at - 0];
      var parsed := ParseEntry(entry, r.at, parse) == Some(r);
      EntryAsks(entry, r.at, parse, r.text, r.q);
      assert Asks(entry, r.text, r.q, parse) == parsed;
    }
  }

  // ---- where nothing is wanted ----

  lemma FirstOfAll(declared: seq<string>, n: nat)
    requires First(declared, Any, n)
    ensures PlausibleKeys(declared) != [] && PlausibleKeys(declared)[0] == declared[n]
  {
    FindFirstIs(declared, Any);
    OneFirst(declared, Any, n, n);
    var m: nat :| First(declared, Any, m) && FindFirst(PlausibleKeys(declared), Any) == Some(declared[m]);
    OneFirst(declared, Any, n, m);
  }

  /**
   * Without a header the first proper key is selected; without a proper key JSON is, whatever the header says; and a
   * refusal lists the proper keys in order.
   */
  lemma Otherwise(declared: seq<string>, accept: Option<string>, parse: string -> Option<real>)
    ensures var r := Negotiated(declared, accept, parse);
            && (accept.None? ==> forall n: nat | First(declared, Any, n) :: r == Selected(declared[n]))
            && ((forall i | 0 <= i < |declared| :: !ProperKey(declared[i])) ==> r == Selected("application/json"))
            && (r.NotAcceptable? ==> Filters(declared, r.declared))
  {
    PlausibleKeysFilter(declared);
    NotAcceptableExactly(declared, accept, parse);
    forall n: nat | First(declared, Any, n)
      ensures PlausibleKeys(declared) != [] && PlausibleKeys(declared)[0] == declared[n]
    {
      FirstOfAll(declared, n);
    }
    if PlausibleKeys(declared) == [] && accept.Some? {
      NothingToPick(Ranked(Ranges(Split(accept.value, ','), 0, parse)));
    }
  }

  lemma {:induction false} NothingToPick(rs: seq<Range>)
    ensures FirstPick([], rs) == None
    decreases |rs|
  {
    if rs != [] {
      NothingToPick(rs[1..]);
    }
  }
}
