/** Which paths a request is looked for at, and which of the templates that serve it is chosen. */
module RouteChoice {
  import opened Strings
  import opened Keys
  import opened Templates
  import opened Matching
  import opened Router
  import RouteLabels

  // ---- the most literal template ----

  /** The positions of the segments that do not start with a brace. */
  function LiteralPositions(segments: seq<string>): set<nat> {
    set i: nat | i < |segments| && !StartsWith(segments[i], "{")
  }

  function LiteralsOf(template: string): set<nat> {
    LiteralPositions(Split(template, '/'))
  }

  function Shifted(positions: set<nat>): set<nat> {
    set i | i in positions :: i + 1
  }

  lemma ShiftedAt(positions: set<nat>, n: nat)
    ensures n in Shifted(positions) <==> n > 0 && n - 1 in positions
  {
    if n > 0 && n - 1 in positions {
      var i := n - 1;
      assert i in positions && i + 1 == n;
    }
  }

  lemma {:induction false} ShiftedSize(positions: set<nat>)
    ensures |Shifted(positions)| == |positions|
  {
    if positions != {} {
      var i :| i in positions;
      ShiftedSize(positions - {i});
      assert positions == (positions - {i}) + {i};
      forall n
        ensures n in Shifted(positions) <==> n in Shifted(positions - {i}) + {i + 1}
      {
        ShiftedAt(positions, n);
        ShiftedAt(positions - {i}, n);
      }
      ShiftedAt(positions - {i}, i + 1);
      assert Shifted(positions) == Shifted(positions - {i}) + {i + 1};
    }
  }

  lemma FirstPosition(segments: seq<string>)
    requires segments != []
    ensures LiteralPositions(segments) ==
              Shifted(LiteralPositions(segments[1..])) + if StartsWith(segments[0], "{") then {} else {0}
  {
    var rest := LiteralPositions(segments[1..]);
    forall i: nat
      ensures i in LiteralPositions(segments) <==>
                (i > 0 && i - 1 in rest) || (i == 0 && !StartsWith(segments[0], "{"))
    {
      if 0 < i < |segments| {
        assert segments[1..][i - 1] == segments[i];
      }
    }
    forall i: nat
      ensures i in Shifted(rest) <==> i > 0 && i - 1 in rest
    {
      ShiftedAt(rest, i);
    }
  }

  lemma {:induction false} LiteralsInCounts(segments: seq<string>)
    ensures LiteralsIn(segments) == |LiteralPositions(segments)|
  {
    if segments == [] {
      assert LiteralPositions(segments) == {};
    } else {
      LiteralsInCounts(segments[1..]);
      ShiftedSize(LiteralPositions(segments[1..]));
      FirstPosition(segments);
      StartsWithChar(segments[0], '{');
      assert 0 !in Shifted(LiteralPositions(segments[1..]));
    }
  }

  /** How literal a template is: the number of its segments that do not start with a brace. */
  lemma LiteralsCount(template: string)
    ensures Literals(template) == |LiteralsOf(template)|
  {
    LiteralsInCounts(Split(template, '/'));
  }

  lemma {:induction false} ProperSubsetSize(a: set<nat>, b: set<nat>)
    requires a < b
    ensures |a| < |b|
  {
    var x :| x in b && x !in a;
    if a == {} {
      assert |b - {x}| == |b| - 1;
    } else {
      var y :| y in a;
      ProperSubsetSize(a - {y}, b - {y});
    }
  }

  /** The choice among the paths in `among`: most literal segments, and the earliest of those. */
  ghost predicate MostLiteral(paths: seq<Path>, among: set<nat>, b: nat) {
    && b in among && b < |paths|
    && forall j | j in among && j < |paths| ::
         && |LiteralsOf(paths[j].template)| <= |LiteralsOf(paths[b].template)|
         && (|LiteralsOf(paths[j].template)| == |LiteralsOf(paths[b].template)| ==> b <= j)
  }

  lemma BestIsMostLiteral(paths: seq<Path>, among: set<nat>, b: nat)
    requires Best(paths, among, b)
    ensures MostLiteral(paths, among, b)
  {
    LiteralsCount(paths[b].template);
    forall j | j in among && j < |paths|
      ensures |LiteralsOf(paths[j].template)| <= |LiteralsOf(paths[b].template)|
      ensures |LiteralsOf(paths[j].template)| == |LiteralsOf(paths[b].template)| ==> b <= j
    {
      LiteralsCount(paths[j].template);
      assert !Beats(paths[j].template, j, paths[b].template, b);
    }
  }

  /** A request that some path serves is routed to the most literal of these, the first one of several. */
  lemma RoutedToMostLiteral(spec: Spec, req: Request, r: RouteMatch) returns (b: nat)
    requires IsRoute(spec, req, r) && r.Found?
    ensures b < |spec.paths| && Serves(spec, spec.paths[b], req) && r == FoundIn(spec, spec.paths[b], req)
    ensures MostLiteral(spec.paths, Serving(spec, req, |spec.paths|), b)
  {
    OneRoute(spec, req, r, r);
    var serving := Serving(spec, req, |spec.paths|);
    b :| Best(spec.paths, serving, b) && r == FoundIn(spec, spec.paths[b], req);
    BestIsMostLiteral(spec.paths, serving, b);
  }

  /**
   * When two templates serve a request and one is literal wherever the other is and somewhere else as well, the
   * request is never routed to the other.
   */
  lemma LessLiteralLoses(spec: Spec, req: Request, r: RouteMatch, i: nat, j: nat)
    requires IsRoute(spec, req, r) && i < |spec.paths| && j < |spec.paths|
    requires Serves(spec, spec.paths[i], req) && Serves(spec, spec.paths[j], req)
    requires LiteralsOf(spec.paths[j].template) < LiteralsOf(spec.paths[i].template)
    ensures r.Found? && r.template != spec.paths[j].template
  {
    OneRoute(spec, req, r, r);
    assert i in Serving(spec, req, |spec.paths|);
    var b := RoutedToMostLiteral(spec, req, r);
    ProperSubsetSize(LiteralsOf(spec.paths[j].template), LiteralsOf(spec.paths[i].template));
  }

  /** And a request is never labelled with it. */
  lemma LessLiteralIsNoLabel(spec: Spec, path: string, route: Option<string>, i: nat, j: nat)
    requires RouteLabels.IsLabel(spec, path, route) && i < |spec.paths| && j < |spec.paths|
    requires var labelled := RouteLabels.Labelled(spec, path, |spec.paths|); i in labelled && j in labelled
    requires LiteralsOf(spec.paths[j].template) < LiteralsOf(spec.paths[i].template)
    ensures route.Some? && route.value != spec.paths[j].template
  {
    var labelled := RouteLabels.Labelled(spec, path, |spec.paths|);
    var b: nat :| Best(spec.paths, labelled, b) && route == Some(spec.paths[b].template);
    BestIsMostLiteral(spec.paths, labelled, b);
    ProperSubsetSize(LiteralsOf(spec.paths[j].template), LiteralsOf(spec.paths[i].template));
  }

  /** Every segment is matched decoded; that text without a percent sign is left alone is the decoder's own doing. */
  lemma SegmentsAreDecoded(template: string, path: string, decode: string -> string)
    requires forall s | '%' !in s :: decode(s) == s
    ensures var ts, segments := Split(template, '/'), Split(path, '/');
            MatchedPath(template, path, decode).Some? <==>
              |ts| == |segments| && forall i | 0 <= i < |ts| :: Segment(ts[i], decode(segments[i])).ok
  {
    PathMatches(template, path, decode);
  }

  // ---- the method ----

  /** The operation a path has for a method; HEAD goes by GET where it has none of its own and is not strict. */
  predicate Offers(item: PathItem, verb: string, strict: bool, op: Operation) {
    || (verb == "GET" && item.getOp == Some(op)) || (verb == "PUT" && item.putOp == Some(op))
    || (verb == "POST" && item.postOp == Some(op)) || (verb == "DELETE" && item.deleteOp == Some(op))
    || (verb == "OPTIONS" && item.optionsOp == Some(op)) || (verb == "PATCH" && item.patchOp == Some(op))
    || (verb == "TRACE" && item.traceOp == Some(op)) || (verb == "HEAD" && item.headOp == Some(op))
    || (verb == "HEAD" && item.headOp == None && !strict && item.getOp == Some(op))
  }

  lemma EffectiveIsOffered(item: PathItem, verb: string, strict: bool, op: Operation)
    ensures Effective(item, verb, strict) == Some(op) <==> Offers(item, verb, strict, op)
  {
  }

  /** The operation of a routed request is what its path offers for its method. */
  lemma RoutedToOffer(spec: Spec, req: Request, r: RouteMatch) returns (b: nat)
    requires IsRoute(spec, req, r) && r.Found?
    ensures b < |spec.paths| && spec.paths[b].ref.Inline? && r.template == spec.paths[b].template
    ensures Offers(spec.paths[b].ref.item, req.verb, req.strict, r.operation)
  {
    b := RoutedToMostLiteral(spec, req, r);
    EffectiveIsOffered(spec.paths[b].ref.item, req.verb, req.strict, r.operation);
  }

  /** Methods are allowed exactly where they are offered. */
  lemma AllowedIsOffered(item: PathItem, strict: bool, verb: string)
    ensures verb in AllowedMethods(item, strict) <==> exists op :: Offers(item, verb, strict, op)
  {
    AllowedAreEffective(item, strict, verb);
    forall op
      ensures Effective(item, verb, strict) == Some(op) <==> Offers(item, verb, strict, op)
    {
      EffectiveIsOffered(item, verb, strict, op);
    }
    if Effective(item, verb, strict).Some? {
      assert Offers(item, verb, strict, Effective(item, verb, strict).value);
    }
  }

  /**
   * A request is refused by the first path that matches and does not offer its method. OPTIONS is answered for it
   * unless matching is strict; either way the methods the path offers are listed, in order.
   */
  lemma RefusedExactly(spec: Spec, req: Request, r: RouteMatch) returns (b: nat)
    requires IsRoute(spec, req, r) && (r.SynthesisedOptions? || r.MethodNotAllowed?)
    ensures r.SynthesisedOptions? <==> req.verb == "OPTIONS" && !req.strict
    ensures b < |spec.paths| && Hit(spec, spec.paths[b], req).Some?
    ensures forall j | 0 <= j < b :: Hit(spec, spec.paths[j], req).None?
    ensures forall op :: !Offers(spec.paths[b].ref.item, req.verb, req.strict, op)
    ensures forall verb :: verb in r.allow <==> exists op :: Offers(spec.paths[b].ref.item, verb, req.strict, op)
    ensures forall i, j | 0 <= i < j < |r.allow| :: Before(r.allow[i], r.allow[j])
  {
    OneRoute(spec, req, r, r);
    b :| FirstBlock(spec, req, |spec.paths|, b) && r == Refused(spec.paths[b].ref.item, req);
    var item := spec.paths[b].ref.item;
    forall j | 0 <= j < b
      ensures Hit(spec, spec.paths[j], req).None?
    {
      assert j !in Serving(spec, req, |spec.paths|);
      assert !Blocks(spec, spec.paths[j], req);
    }
    forall op
      ensures !Offers(item, req.verb, req.strict, op)
    {
      EffectiveIsOffered(item, req.verb, req.strict, op);
    }
    forall verb
      ensures verb in AllowedMethods(item, req.strict) <==> exists op :: Offers(item, verb, req.strict, op)
    {
      AllowedIsOffered(item, req.strict, verb);
    }
    SortedRises(AllowedMethods(item, req.strict));
  }

  /** The case of a method does not matter: a request for it in any case is one for its upper-case form. */
  lemma MethodIgnoresCase(spec: Spec, verb: string, name: string, path: string, strict: bool, decode: string -> string,
                          r: RouteMatch, q: RouteMatch)
    requires SameName(verb, name)
    requires IsRoute(spec, Request(ToUpper(verb), path, strict, decode), r)
    requires IsRoute(spec, Request(ToUpper(name), path, strict, decode), q)
    ensures r == q
    ensures name == "GET" && r.Found? ==>
              exists b | 0 <= b < |spec.paths| ::
                spec.paths[b].ref.Inline? && spec.paths[b].ref.item.getOp == Some(r.operation)
  {
    ToUpperIs(verb, name);
    OneRoute(spec, Request(ToUpper(name), path, strict, decode), r, q);
    if name == "GET" && r.Found? {
      UpperCaseStays(name);
      var b := RoutedToOffer(spec, Request(ToUpper(name), path, strict, decode), r);
    }
  }

  lemma UpperCaseStays(name: string)
    requires forall i | 0 <= i < |name| :: !('a' <= name[i] <= 'z')
    ensures ToUpper(name) == name
  {
    ToUpperIs(name, name);
    forall i | 0 <= i < |name|
      ensures ToUpper(name)[i] == name[i]
    {
      assert SameLetter(name[i], ToUpper(name)[i]);
    }
  }

  // ---- the paths a request is looked for at ----

  /**
   * `rest` is what a server's base leaves of a path: all of it where the base is trivial or does not lead it, else
   * what follows the base, with a slash put before it unless it has one.
   */
  predicate Remains(base: string, path: string, rest: string) {
    if base in {"", "/"} || !StartsWith(path, base) then rest == path
    else if |base| < |path| && path[|base|] == '/' then base + rest == path
    else StartsWith(rest, "/") && base + rest[1..] == path
  }

  lemma RestRemains(base: string, path: string)
    ensures forall rest :: Remains(base, path, rest) <==> rest == CandidateFor(base, path)
  {
    forall rest
      ensures Remains(base, path, rest) <==> rest == CandidateFor(base, path)
    {
      StartsWithChar(rest, '/');
      if base !in {"", "/"} && base <= path {
        var tail := path[|base|..];
        assert path == base + tail;
        if base + rest == path {
          assert (base + rest)[|base|..] == rest;
        }
        if rest != "" && rest[0] == '/' && base + rest[1..] == path {
          assert (base + rest[1..])[|base|..] == rest[1..];
          assert rest == "/" + rest[1..];
        }
        assert ("/" + tail)[1..] == tail;
      }
    }
  }

  /** `list` is the first of the levels that declares any server. */
  predicate FirstDeclared(levels: seq<seq<string>>, list: seq<string>) {
    || (exists i | 0 <= i < |levels| :: levels[i] == list && list != [] && forall j | 0 <= j < i :: levels[j] == [])
    || (list == [] && forall i | 0 <= i < |levels| :: levels[i] == [])
  }

  /** The servers of the method's own operation go before those of the path, and these before the document's. */
  predicate Deciding(spec: Spec, item: PathItem, verb: string, list: seq<string>) {
    var op := GetOperation(item, verb);
    FirstDeclared([if op.Some? then op.value.servers else [], item.servers, spec.servers], list)
  }

  lemma ServersDecide(spec: Spec, item: PathItem, verb: string)
    ensures forall list :: Deciding(spec, item, verb, list) <==> list == Servers(spec, item, verb)
  {
    var op := GetOperation(item, verb);
    var levels := [if op.Some? then op.value.servers else [], item.servers, spec.servers];
    var list := Servers(spec, item, verb);
    assert levels[0] == (if op.Some? then op.value.servers else []);
    assert levels[1] == item.servers && levels[2] == spec.servers;
    assert FirstDeclared(levels, list);
  }

  /** Whether `path` matches, less one trailing slash; the root keeps its own. */
  predicate MatchesAs(template: string, path: string, decode: string -> string, bs: seq<Binding>) {
    exists kept | kept in {path, path[..if |path| > 0 then |path| - 1 else 0]} ::
      && (if |path| > 1 && EndsWith(path, "/") then kept + "/" == path else kept == path)
      && MatchedPath(template, kept, decode) == Some(bs)
  }

  lemma MatchesLessSlash(template: string, path: string, decode: string -> string, bs: seq<Binding>)
    ensures MatchesAs(template, path, decode, bs) <==>
              MatchedPath(template, WithoutTrailingSlash(path), decode) == Some(bs)
  {
    if |path| > 1 {
      var kept := path[..|path| - 1];
      assert path == kept + [path[|path| - 1]];
      assert path[|path| - 1..] == [path[|path| - 1]];
      assert kept + "/" == path <==> path[|path| - 1] == '/';
      assert path + "/" != path;
    }
  }

  /** The first of the servers whose remainder matches gives the captures. */
  ghost predicate FirstServer(template: string, servers: seq<string>, req: Request, k: nat, bs: seq<Binding>) {
    && k < |servers|
    && (forall rest | Remains(servers[k], req.path, rest) :: MatchesAs(template, rest, req.decode, bs))
    && forall j, rest, other | 0 <= j < k && Remains(servers[j], req.path, rest) ::
         !MatchesAs(template, rest, req.decode, other)
  }

  function MatchOf(template: string, candidate: string, decode: string -> string): Option<seq<Binding>> {
    MatchedPath(template, WithoutTrailingSlash(candidate), decode)
  }

  lemma {:induction false} FirstMatchOfMore(template: string, out: seq<string>, c: string, decode: string -> string)
    ensures FirstMatch(template, out + [c], decode) ==
              if FirstMatch(template, out, decode).Some? then FirstMatch(template, out, decode)
              else MatchOf(template, c, decode)
    ensures FirstMatch(template, out, decode).None? && c in out ==> MatchOf(template, c, decode).None?
  {
    if out == [] {
      assert ([] + [c])[1..] == [] && ([] + [c])[0] == c;
    } else {
      assert (out + [c])[1..] == out[1..] + [c];
      FirstMatchOfMore(template, out[1..], c, decode);
    }
  }

  function ServerMatch(template: string, base: string, req: Request): Option<seq<Binding>> {
    MatchOf(template, CandidateFor(base, req.path), req.decode)
  }

  /** What the first of the servers gives whose remainder matches. */
  function FirstHit(template: string, servers: seq<string>, req: Request): Option<seq<Binding>> {
    if servers == [] then None
    else if ServerMatch(template, servers[0], req).Some? then ServerMatch(template, servers[0], req)
    else FirstHit(template, servers[1..], req)
  }

  /** Server `k` matches, and none before it. */
  predicate HitsFirst(template: string, servers: seq<string>, req: Request, k: nat, bs: seq<Binding>) {
    && k < |servers| && ServerMatch(template, servers[k], req) == Some(bs)
    && forall j | 0 <= j < k :: ServerMatch(template, servers[j], req).None?
  }

  lemma HitsLater(template: string, servers: seq<string>, req: Request, k: nat, bs: seq<Binding>)
    requires servers != [] && ServerMatch(template, servers[0], req).None?
    ensures HitsFirst(template, servers[1..], req, k, bs) <==> HitsFirst(template, servers, req, k + 1, bs)
    ensures !HitsFirst(template, servers, req, 0, bs)
  {
    var rest := servers[1..];
    assert forall j | 0 <= j < |rest| :: rest[j] == servers[j + 1];
    assert forall j | 0 < j < |servers| :: servers[j] == rest[j - 1];
  }

  lemma {:induction false} FirstHitIs(template: string, servers: seq<string>, req: Request, bs: seq<Binding>)
    ensures FirstHit(template, servers, req) == Some(bs) <==>
              exists k: nat :: HitsFirst(template, servers, req, k, bs)
  {
    if servers != [] {
      if ServerMatch(template, servers[0], req).Some? {
        assert ServerMatch(template, servers[0], req) == Some(bs) ==> HitsFirst(template, servers, req, 0, bs);
      } else {
        FirstHitIs(template, servers[1..], req, bs);
        forall k: nat
          ensures HitsFirst(template, servers[1..], req, k, bs) <==> HitsFirst(template, servers, req, k + 1, bs)
          ensures !HitsFirst(template, servers, req, 0, bs)
        {
          HitsLater(template, servers, req, k, bs);
        }
        if exists k: nat :: HitsFirst(template, servers, req, k, bs) {
          var k: nat :| HitsFirst(template, servers, req, k, bs);
          assert HitsFirst(template, servers[1..], req, k - 1, bs);
        }
      }
    }
  }

  /** Candidates are tried in the order of the servers, a remainder met before only once. */
  lemma {:induction false} CandidatesKeepOrder(template: string, servers: seq<string>, req: Request, out: seq<string>)
    requires FirstMatch(template, out, req.decode).None?
    ensures FirstMatch(template, CandidatesFrom(servers, req.path, out), req.decode) == FirstHit(template, servers, req)
    decreases |servers|
  {
    if servers != [] {
      var c := CandidateFor(servers[0], req.path);
      FirstMatchOfMore(template, out, c, req.decode);
      if FirstMatch(template, AddNew(out, c), req.decode).None? {
        CandidatesKeepOrder(template, servers[1..], req, AddNew(out, c));
      } else {
        FoundStays(template, servers[1..], req.path, req.decode, out + [c]);
      }
    }
  }

  lemma {:induction false} FoundStays(template: string, servers: seq<string>, path: string, decode: string -> string,
                                      out: seq<string>)
    requires FirstMatch(template, out, decode).Some?
    ensures FirstMatch(template, CandidatesFrom(servers, path, out), decode) == FirstMatch(template, out, decode)
    decreases |servers|
  {
    if servers != [] {
      FirstMatchOfMore(template, out, CandidateFor(servers[0], path), decode);
      FoundStays(template, servers[1..], path, decode, AddNew(out, CandidateFor(servers[0], path)));
    }
  }

  lemma RemainderMatches(template: string, base: string, req: Request, bs: seq<Binding>)
    ensures (forall rest | Remains(base, req.path, rest) :: MatchesAs(template, rest, req.decode, bs)) <==>
              MatchOf(template, CandidateFor(base, req.path), req.decode) == Some(bs)
    ensures (exists rest :: Remains(base, req.path, rest) && MatchesAs(template, rest, req.decode, bs)) <==>
              MatchOf(template, CandidateFor(base, req.path), req.decode) == Some(bs)
  {
    RestRemains(base, req.path);
    MatchesLessSlash(template, CandidateFor(base, req.path), req.decode, bs);
    assert Remains(base, req.path, CandidateFor(base, req.path));
  }

  /**
   * A path is hit with captures exactly if the first deciding server whose remainder its template matches gives them,
   * or, where no level declares a server, the whole path does.
   */
  lemma HitExactly(spec: Spec, path: Path, req: Request, list: seq<string>, bs: seq<Binding>)
    requires path.ref.Inline? && Deciding(spec, path.ref.item, req.verb, list)
    ensures Hit(spec, path, req) == Some(bs) <==>
              if list == [] then MatchesAs(path.template, req.path, req.decode, bs)
              else exists k: nat :: FirstServer(path.template, list, req, k, bs)
  {
    ServersDecide(spec, path.ref.item, req.verb);
    assert list == Servers(spec, path.ref.item, req.verb);
    if list == [] {
      FirstMatchOfMore(path.template, [], req.path, req.decode);
      assert [] + [req.path] == [req.path] && Candidates(list, req.path) == [req.path];
      MatchesLessSlash(path.template, req.path, req.decode, bs);
    } else {
      HitByServer(path.template, list, req, bs);
      CandidatesFromSome(list, req.path, []);
    }
  }

  lemma {:induction false} CandidatesFromSome(servers: seq<string>, path: string, out: seq<string>)
    ensures servers != [] || out != [] ==> CandidatesFrom(servers, path, out) != []
    decreases |servers|
  {
    if servers != [] {
      CandidatesFromSome(servers[1..], path, AddNew(out, CandidateFor(servers[0], path)));
    }
  }

  lemma HitByServer(template: string, servers: seq<string>, req: Request, bs: seq<Binding>)
    ensures FirstMatch(template, CandidatesFrom(servers, req.path, []), req.decode) == Some(bs) <==>
              exists k: nat :: FirstServer(template, servers, req, k, bs)
  {
    FirstHitIs(template, servers, req, bs);
    CandidatesKeepOrder(template, servers, req, []);
    forall k: nat
      ensures FirstServer(template, servers, req, k, bs) <==> HitsFirst(template, servers, req, k, bs)
    {
      FirstServerIs(template, servers, req, k, bs);
    }
  }

  lemma FirstServerIs(template: string, servers: seq<string>, req: Request, k: nat, bs: seq<Binding>)
    ensures FirstServer(template, servers, req, k, bs) <==> HitsFirst(template, servers, req, k, bs)
  {
    if k < |servers| {
      RemainderMatches(template, servers[k], req, bs);
      forall j, other | 0 <= j < k
        ensures ServerMatch(template, servers[j], req) == Some(other) <==>
                  exists rest ::
                    Remains(servers[j], req.path, rest) && MatchesAs(template, rest, req.decode, other)
      {
        RemainderMatches(template, servers[j], req, other);
      }
    }
  }

  /** A base is taken off inside a segment as well: `/apix` is looked for as `/x` under the base `/api`. */
  lemma InsideASegment()
    ensures Remains("/api", "/apix", "/x") && CandidateFor("/api", "/apix") == "/x"
  {
    assert "/api" + "/x"[1..] == "/apix";
    RestRemains("/api", "/apix");
  }
}
