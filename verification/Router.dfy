/** From a request to an operation of the specification: template by template, the most literal match wins. */
module Router {
  import opened Strings
  import opened Keys
  import opened Templates
  import opened Matching

  /** Servers are given by the base path of their URL. */
  datatype Operation = Operation(id: string, servers: seq<string>)

  datatype PathItem = PathItem(getOp: Option<Operation>, putOp: Option<Operation>, postOp: Option<Operation>,
                               deleteOp: Option<Operation>, optionsOp: Option<Operation>, headOp: Option<Operation>,
                               patchOp: Option<Operation>, traceOp: Option<Operation>, servers: seq<string>)

  datatype PathRef = Inline(item: PathItem) | Reference

  datatype Path = Path(template: string, ref: PathRef)

  /** Paths in document order, their templates distinct. */
  datatype Spec = Spec(paths: seq<Path>, servers: seq<string>)

  datatype RouteMatch =
    | Found(operation: Operation, params: map<string, string>, template: string)
    | MethodNotAllowed(allow: seq<string>)
    | SynthesisedOptions(allow: seq<string>)
    | NotFound

  /** The request, with its method in upper case. */
  datatype Request = Request(verb: string, path: string, strict: bool, decode: string -> string)

  // ---- pieces ----

  function GetOperation(item: PathItem, verb: string): Option<Operation> {
    match verb
    case "GET" => item.getOp
    case "PUT" => item.putOp
    case "POST" => item.postOp
    case "DELETE" => item.deleteOp
    case "OPTIONS" => item.optionsOp
    case "HEAD" => item.headOp
    case "PATCH" => item.patchOp
    case "TRACE" => item.traceOp
    case _ => None
  }

  /** A HEAD request falls back on GET unless matching is strict. */
  function Effective(item: PathItem, verb: string, strict: bool): Option<Operation> {
    var op := GetOperation(item, verb);
    if op.None? && verb == "HEAD" && !strict then item.getOp else op
  }

  function CandidateFor(base: string, path: string): string {
    if base == "" || base == "/" then path
    else if base <= path then
      var rest := path[|base|..];
      if rest == "" then "/" else if rest[0] == '/' then rest else "/" + rest
    else path
  }

  function AddNew(out: seq<string>, s: string): seq<string> {
    if s in out then out else out + [s]
  }

  function CandidatesFrom(servers: seq<string>, path: string, out: seq<string>): seq<string>
    decreases |servers|
  {
    if servers == [] then out else CandidatesFrom(servers[1..], path, AddNew(out, CandidateFor(servers[0], path)))
  }

  function Candidates(servers: seq<string>, path: string): seq<string> {
    var out := CandidatesFrom(servers, path, []);
    if out == [] then [path] else out
  }

  method CandidatePaths(servers: seq<string>, path: string) returns (out: seq<string>)
    ensures out == Candidates(servers, path)
  {
    out := [];
    assert servers[0..] == servers;
    for i := 0 to |servers|
      invariant CandidatesFrom(servers, path, []) == CandidatesFrom(servers[i..], path, out)
    {
      assert servers[i..][1..] == servers[i + 1..];
      var candidate := CandidateFor(servers[i], path);
      if candidate !in out {
        out := out + [candidate];
      }
    }
    if out == [] {
      out := [path];
    }
  }

  lemma {:induction false} CandidatesAre(servers: seq<string>, path: string, out: seq<string>)
    ensures forall c :: c in CandidatesFrom(servers, path, out) <==>
              c in out || exists base | base in servers :: c == CandidateFor(base, path)
    decreases |servers|
  {
    if servers != [] {
      CandidatesAre(servers[1..], path, AddNew(out, CandidateFor(servers[0], path)));
      assert servers == [servers[0]] + servers[1..];
    }
  }

  /** A base path that is not trivial and does lead the path is always taken off it. */
  lemma KeepsPath(base: string, path: string)
    ensures CandidateFor(base, path) == path <==> base == "" || base == "/" || !(base <= path)
  {
    if base != "" && base != "/" && base <= path {
      var rest := path[|base|..];
      assert path == base + rest;
      if |base| == 1 {
        assert base[0] == path[0];
        assert base == [base[0]];
      }
    }
  }

  /** The raw path is looked for only when no server is declared or some server leaves it as it is. */
  lemma RawPathCandidate(servers: seq<string>, path: string)
    ensures path in Candidates(servers, path) <==>
            servers == [] || exists base | base in servers :: base == "" || base == "/" || !(base <= path)
  {
    CandidatesAre(servers, path, []);
    forall base | base in servers
      ensures CandidateFor(base, path) == path <==> base == "" || base == "/" || !(base <= path)
    {
      KeepsPath(base, path);
    }
    if servers != [] {
      assert servers[0] in servers;
      assert CandidateFor(servers[0], path) in CandidatesFrom(servers, path, []);
    }
  }

  /** The servers of the operation come before those of the path, and those before the document's. */
  function Servers(spec: Spec, item: PathItem, verb: string): seq<string> {
    var op := GetOperation(item, verb);
    if op.Some? && op.value.servers != [] then op.value.servers
    else if item.servers != [] then item.servers
    else spec.servers
  }

  function WithoutTrailingSlash(path: string): string {
    if |path| > 1 && path[|path| - 1] == '/' then path[..|path| - 1] else path
  }

  function LiteralsIn(segments: seq<string>): nat {
    if segments == [] then 0
    else (if segments[0] != "" && segments[0][0] == '{' then 0 else 1) + LiteralsIn(segments[1..])
  }

  /** How specific a template is: its segments that do not start with a brace. */
  function Literals(template: string): nat {
    LiteralsIn(Split(template, '/'))
  }

  // ---- what a path of the document says of a request ----

  function FirstMatch(template: string, candidates: seq<string>, decode: string -> string): Option<seq<Binding>> {
    if candidates == [] then None
    else
      var bs := MatchedPath(template, WithoutTrailingSlash(candidates[0]), decode);
      if bs.Some? then bs else FirstMatch(template, candidates[1..], decode)
  }

  /** The captures of the first candidate path that matches; a path given by reference matches nothing. */
  function Hit(spec: Spec, path: Path, req: Request): Option<seq<Binding>> {
    match path.ref
    case Reference => None
    case Inline(item) => FirstMatch(path.template, Candidates(Servers(spec, item, req.verb), req.path), req.decode)
  }

  predicate Serves(spec: Spec, path: Path, req: Request) {
    Hit(spec, path, req).Some? && Effective(path.ref.item, req.verb, req.strict).Some?
  }

  /** The path matches and has no operation for the method. */
  predicate Blocks(spec: Spec, path: Path, req: Request) {
    Hit(spec, path, req).Some? && Effective(path.ref.item, req.verb, req.strict).None?
  }

  /** The paths among the first `n` that serve the request. */
  function Serving(spec: Spec, req: Request, n: nat): set<nat>
    requires n <= |spec.paths|
  {
    set j: nat | j < n && Serves(spec, spec.paths[j], req)
  }

  /** Of the paths in `among`, none is more literal than `b`, and no earlier one as literal. */
  predicate Best(paths: seq<Path>, among: set<nat>, b: nat) {
    && b in among && b < |paths|
    && forall j | j in among :: j < |paths| && !Beats(paths[j].template, j, paths[b].template, b)
  }

  predicate Beats(t: string, j: nat, u: string, b: nat) {
    Literals(t) > Literals(u) || (Literals(t) == Literals(u) && j < b)
  }

  predicate FirstBlock(spec: Spec, req: Request, n: nat, b: nat)
    requires n <= |spec.paths|
  {
    b < n && Blocks(spec, spec.paths[b], req) && forall j | 0 <= j < b :: !Blocks(spec, spec.paths[j], req)
  }

  predicate AnyBlocks(spec: Spec, req: Request, n: nat)
    requires n <= |spec.paths|
  {
    exists j | 0 <= j < n :: Blocks(spec, spec.paths[j], req)
  }

  function FoundIn(spec: Spec, path: Path, req: Request): RouteMatch
    requires Serves(spec, path, req)
  {
    Found(Effective(path.ref.item, req.verb, req.strict).value, Insert(map[], Hit(spec, path, req).value),
          path.template)
  }

  // ---- the Allow header ----

  function AllowedMethods(item: PathItem, strict: bool): set<string> {
    (if item.getOp.Some? then {"GET"} else {}) +
    (if item.putOp.Some? then {"PUT"} else {}) +
    (if item.postOp.Some? then {"POST"} else {}) +
    (if item.deleteOp.Some? then {"DELETE"} else {}) +
    (if item.optionsOp.Some? then {"OPTIONS"} else {}) +
    (if item.headOp.Some? || (!strict && item.getOp.Some?) then {"HEAD"} else {}) +
    (if item.patchOp.Some? then {"PATCH"} else {}) +
    (if item.traceOp.Some? then {"TRACE"} else {})
  }

  /** `sort_unstable` then `dedup`: every name once, in ascending order. */
  method AllowHeader(item: PathItem, strict: bool) returns (names: seq<string>)
    ensures names == Sorted(AllowedMethods(item, strict))
  {
    names := [];
    var todo := AllowedMethods(item, strict);
    while todo != {}
      invariant Sorted(AllowedMethods(item, strict)) == names + Sorted(todo)
      decreases todo
    {
      var first, rest := TakeFirst(todo);
      names := names + [first];
      todo := rest;
    }
  }

  // ---- routing ----

  /** Tries the candidate paths of one template; `hit` is whether any matched, `params` the captures of the first. */
  method TryCandidates(spec: Spec, path: Path, req: Request) returns (hit: bool, params: map<string, string>)
    requires path.ref.Inline?
    ensures hit == Hit(spec, path, req).Some?
    ensures hit ==> params == Insert(map[], Hit(spec, path, req).value)
  {
    var candidates := CandidatePaths(Servers(spec, path.ref.item, req.verb), req.path);
    params := map[];
    assert candidates[0..] == candidates;
    for i := 0 to |candidates|
      invariant FirstMatch(path.template, candidates, req.decode) ==
                  FirstMatch(path.template, candidates[i..], req.decode)
    {
      assert candidates[i..][1..] == candidates[i + 1..];
      var r := MatchTemplate(path.template, WithoutTrailingSlash(candidates[i]), req.decode);
      if r.Some? {
        return true, r.value;
      }
    }
    assert candidates[|candidates|..] == [];
    hit := false;
  }

  /** What routing comes to, said without a loop. */
  ghost predicate IsRoute(spec: Spec, req: Request, r: RouteMatch) {
    var n := |spec.paths|;
    var serving := Serving(spec, req, n);
    if serving != {} then exists b: nat :: Best(spec.paths, serving, b) && r == FoundIn(spec, spec.paths[b], req)
    else if AnyBlocks(spec, req, n) then
      exists b: nat :: FirstBlock(spec, req, n, b) && r == Refused(spec.paths[b].ref.item, req)
    else r == NotFound
  }

  /** What a path without the method answers: OPTIONS is made up for it unless matching is strict. */
  ghost function Refused(item: PathItem, req: Request): RouteMatch {
    if MadeUp(req) then SynthesisedOptions(Sorted(AllowedMethods(item, false)))
    else MethodNotAllowed(Sorted(AllowedMethods(item, req.strict)))
  }

  predicate MadeUp(req: Request) {
    req.verb == "OPTIONS" && !req.strict
  }

  /** One path of the document: the operation it serves the request with, or that it blocks it. */
  method TryPath(spec: Spec, path: Path, req: Request) returns (served: Option<RouteMatch>, blocks: bool)
    ensures served.Some? == Serves(spec, path, req)
    ensures served.Some? ==> served.value == FoundIn(spec, path, req)
    ensures blocks == Blocks(spec, path, req)
    ensures blocks ==> path.ref.Inline?
  {
    served, blocks := None, false;
    if path.ref.Inline? {
      var hit, params := TryCandidates(spec, path, req);
      if hit {
        var operation := Effective(path.ref.item, req.verb, req.strict);
        if operation.None? {
          blocks := true;
        } else {
          served := Some(Found(operation.value, params, path.template));
        }
      }
    }
  }

  lemma OnePathMore(spec: Spec, req: Request, n: nat)
    requires n < |spec.paths|
    ensures Serving(spec, req, n + 1) == Serving(spec, req, n) + if Serves(spec, spec.paths[n], req) then {n} else {}
    ensures AnyBlocks(spec, req, n + 1) <==> AnyBlocks(spec, req, n) || Blocks(spec, spec.paths[n], req)
  {}

  lemma BestSoFar(paths: seq<Path>, among: set<nat>, n: nat, b: nat)
    requires n < |paths| && Best(paths, among, b) && forall j | j in among :: j < n
    ensures Best(paths, among + {n}, if Literals(paths[n].template) > Literals(paths[b].template) then n else b)
  {}

  method RouteRequest(spec: Spec, verb: string, path: string, strict: bool, decode: string -> string)
    returns (r: RouteMatch)
    ensures IsRoute(spec, Request(ToUpper(verb), path, strict, decode), r)
  {
    r := RouteUpper(spec, Request(ToUpper(verb), path, strict, decode));
  }

  /** The best path so far is known, with its specificity. */
  ghost predicate BestKnown(spec: Spec, req: Request, n: nat, best: Option<(nat, RouteMatch)>, at: nat)
    requires n <= |spec.paths|
  {
    var serving := Serving(spec, req, n);
    if best.None? then serving == {}
    else
      && Best(spec.paths, serving, at)
      && best.value == (Literals(spec.paths[at].template), FoundIn(spec, spec.paths[at], req))
  }

  ghost predicate BlockKnown(spec: Spec, req: Request, n: nat, blocked: Option<PathItem>, at: nat)
    requires n <= |spec.paths|
  {
    if blocked.None? then !AnyBlocks(spec, req, n)
    else FirstBlock(spec, req, n, at) && blocked == Some(spec.paths[at].ref.item)
  }

  lemma BestStays(spec: Spec, req: Request, n: nat, best: Option<(nat, RouteMatch)>, at: nat)
    requires n < |spec.paths| && BestKnown(spec, req, n, best, at)
    requires Serves(spec, spec.paths[n], req) ==> best.Some? && Literals(spec.paths[n].template) <= best.value.0
    ensures BestKnown(spec, req, n + 1, best, at)
  {
    OnePathMore(spec, req, n);
    if Serves(spec, spec.paths[n], req) {
      BestSoFar(spec.paths, Serving(spec, req, n), n, at);
    }
  }

  lemma BestMoves(spec: Spec, req: Request, n: nat, best: Option<(nat, RouteMatch)>, at: nat, r: RouteMatch)
    requires n < |spec.paths| && BestKnown(spec, req, n, best, at)
    requires Serves(spec, spec.paths[n], req) && r == FoundIn(spec, spec.paths[n], req)
    requires best.None? || Literals(spec.paths[n].template) > best.value.0
    ensures BestKnown(spec, req, n + 1, Some((Literals(spec.paths[n].template), r)), n)
  {
    OnePathMore(spec, req, n);
    if best.Some? {
      BestSoFar(spec.paths, Serving(spec, req, n), n, at);
    }
  }

  lemma BlockStep(spec: Spec, req: Request, n: nat, blocked: Option<PathItem>, at: nat, blocks: bool)
    requires n < |spec.paths| && BlockKnown(spec, req, n, blocked, at) && blocks == Blocks(spec, spec.paths[n], req)
    ensures if blocks && blocked.None? then BlockKnown(spec, req, n + 1, Some(spec.paths[n].ref.item), n)
            else BlockKnown(spec, req, n + 1, blocked, at)
  {
    OnePathMore(spec, req, n);
  }

  method RouteUpper(spec: Spec, req: Request) returns (r: RouteMatch)
    ensures IsRoute(spec, req, r)
  {
    var best: Option<(nat, RouteMatch)> := None;
    var blocked: Option<PathItem> := None;
    ghost var bestAt, blockAt := 0, 0;
    for i := 0 to |spec.paths|
      invariant BestKnown(spec, req, i, best, bestAt)
      invariant BlockKnown(spec, req, i, blocked, blockAt)
    {
      var path := spec.paths[i];
      var served, blocks := TryPath(spec, path, req);
      BlockStep(spec, req, i, blocked, blockAt, blocks);
      if blocks && blocked.None? {
        blocked := Some(path.ref.item);
        blockAt := i;
      }
      if served.Some? && (best.None? || Literals(path.template) > best.value.0) {
        BestMoves(spec, req, i, best, bestAt, served.value);
        best := Some((Literals(path.template), served.value));
        bestAt := i;
      } else {
        BestStays(spec, req, i, best, bestAt);
      }
    }
    if best.Some? {
      r := best.value.1;
    } else if blocked.Some? {
      r := Refuse(blocked.value, req);
    } else {
      r := NotFound;
    }
  }

  method Refuse(item: PathItem, req: Request) returns (r: RouteMatch)
    ensures r == Refused(item, req)
  {
    if MadeUp(req) {
      var allow := AllowHeader(item, false);
      r := SynthesisedOptions(allow);
    } else {
      var allow := AllowHeader(item, req.strict);
      r := MethodNotAllowed(allow);
    }
  }

  // ---- what follows ----

  lemma BestIsUnique(paths: seq<Path>, among: set<nat>, a: nat, b: nat)
    requires Best(paths, among, a) && Best(paths, among, b)
    ensures a == b
  {}

  /** The outcome is determined: an operation, synthesised options, method not allowed or not found. */
  lemma OneRoute(spec: Spec, req: Request, r: RouteMatch, q: RouteMatch)
    requires IsRoute(spec, req, r) && IsRoute(spec, req, q)
    ensures r == q
    ensures r.Found? <==> Serving(spec, req, |spec.paths|) != {}
    ensures r.SynthesisedOptions? <==>
              !r.Found? && AnyBlocks(spec, req, |spec.paths|) && MadeUp(req)
    ensures r.MethodNotAllowed? <==>
              !r.Found? && AnyBlocks(spec, req, |spec.paths|) && !MadeUp(req)
    ensures r.NotFound? <==> forall j | 0 <= j < |spec.paths| :: Hit(spec, spec.paths[j], req).None?
  {
    if Serving(spec, req, |spec.paths|) != {} {
      var serving := Serving(spec, req, |spec.paths|);
      var a: nat :| Best(spec.paths, serving, a) && r == FoundIn(spec, spec.paths[a], req);
      var b: nat :| Best(spec.paths, serving, b) && q == FoundIn(spec, spec.paths[b], req);
      BestIsUnique(spec.paths, serving, a, b);
    } else if AnyBlocks(spec, req, |spec.paths|) {
      var a: nat :| FirstBlock(spec, req, |spec.paths|, a) && r == Refused(spec.paths[a].ref.item, req);
      var b: nat :| FirstBlock(spec, req, |spec.paths|, b) && q == Refused(spec.paths[b].ref.item, req);
      assert a == b;
    }
    NobodyHits(spec, req);
  }

  lemma NobodyHits(spec: Spec, req: Request)
    ensures Serving(spec, req, |spec.paths|) == {} && !AnyBlocks(spec, req, |spec.paths|) <==>
            forall j | 0 <= j < |spec.paths| :: Hit(spec, spec.paths[j], req).None?
  {
    forall j | 0 <= j < |spec.paths|
      ensures Hit(spec, spec.paths[j], req).Some? <==>
              j in Serving(spec, req, |spec.paths|) || Blocks(spec, spec.paths[j], req)
    {
      assert j in Serving(spec, req, |spec.paths|) <==> Serves(spec, spec.paths[j], req);
    }
  }

  /** Exactly the methods with an operation are allowed, HEAD through GET included. */
  lemma AllowedAreEffective(item: PathItem, strict: bool, verb: string)
    ensures verb in AllowedMethods(item, strict) <==> Effective(item, verb, strict).Some?
  {}

  /** No server is overridden, so every method is looked for at the same paths. */
  ghost predicate OneServerList(item: PathItem) {
    && item.servers == []
    && forall verb :: GetOperation(item, verb).Some? ==> GetOperation(item, verb).value.servers == []
  }

  /**
   * When one template matches and it overrides no servers, the Allow header lists, in order and once each,
   * exactly the methods that are routed to an operation.
   */
  lemma AllowIsExact(spec: Spec, req: Request, b: nat, verb: string, r: RouteMatch)
    requires b < |spec.paths| && spec.paths[b].ref.Inline? && Hit(spec, spec.paths[b], req).Some?
    requires forall j | 0 <= j < |spec.paths| && j != b :: Hit(spec, spec.paths[j], req.(verb := verb)).None?
    requires OneServerList(spec.paths[b].ref.item)
    requires IsRoute(spec, req.(verb := verb), r)
    ensures var allow := Sorted(AllowedMethods(spec.paths[b].ref.item, req.strict));
      && (verb in allow <==> r.Found?)
      && (forall i, j | 0 <= i < j < |allow| :: Before(allow[i], allow[j]))
  {
    var item := spec.paths[b].ref.item;
    var other := req.(verb := verb);
    SortedRises(AllowedMethods(item, req.strict));
    AllowedAreEffective(item, req.strict, verb);
    assert Servers(spec, item, verb) == spec.servers == Servers(spec, item, req.verb);
    assert Hit(spec, spec.paths[b], other) == Hit(spec, spec.paths[b], req);
    OneRoute(spec, other, r, r);
    if verb in Sorted(AllowedMethods(item, req.strict)) {
      assert Serves(spec, spec.paths[b], other);
    }
  }
}
