/** The route label of the request metrics: a second, narrower matcher, and where it agrees with the router. */
module RouteLabels {
  import opened Strings
  import opened Templates
  import opened Matching
  import opened Router

  predicate SegmentMatches(template: string, actual: string) {
    if Whole(template) then actual != "" else template == actual
  }

  predicate TemplateMatches(template: string, path: string) {
    var ts, segments := Split(template, '/'), Split(path, '/');
    |ts| == |segments| && forall i | 0 <= i < |ts| :: SegmentMatches(ts[i], segments[i])
  }

  method TemplateMatchesPath(template: string, path: string) returns (ok: bool)
    ensures ok == TemplateMatches(template, path)
  {
    var ts, segments := Split(template, '/'), Split(path, '/');
    if |ts| != |segments| {
      return false;
    }
    for i := 0 to |ts|
      invariant forall j | 0 <= j < i :: SegmentMatches(ts[j], segments[j])
    {
      if !SegmentMatches(ts[i], segments[i]) {
        return false;
      }
    }
    return true;
  }

  /** The paths among the first `n` whose template the label matcher accepts. */
  function Labelled(spec: Spec, path: string, n: nat): set<nat>
    requires n <= |spec.paths|
  {
    set j: nat | j < n && TemplateMatches(spec.paths[j].template, WithoutTrailingSlash(path))
  }

  /** The label of a request path; none stands for the sentinel of unmatched requests. */
  method MatchRouteTemplate(spec: Spec, path: string) returns (route: Option<string>)
    ensures IsLabel(spec, path, route)
  {
    var normalised := WithoutTrailingSlash(path);
    var best: Option<(nat, string)> := None;
    ghost var bestAt := 0;
    for i := 0 to |spec.paths|
      invariant best.Some? == (Labelled(spec, path, i) != {})
      invariant best.Some? ==> Best(spec.paths, Labelled(spec, path, i), bestAt) &&
                               best.value == (Literals(spec.paths[bestAt].template), spec.paths[bestAt].template)
    {
      var template := spec.paths[i].template;
      var ok := TemplateMatchesPath(template, normalised);
      assert Labelled(spec, path, i + 1) == Labelled(spec, path, i) + if ok then {i} else {};
      if ok {
        if best.Some? {
          BestSoFar(spec.paths, Labelled(spec, path, i), i, bestAt);
        }
        if best.None? || Literals(template) > best.value.0 {
          best := Some((Literals(template), template));
          bestAt := i;
        }
      }
    }
    route := if best.Some? then Some(best.value.1) else None;
  }

  ghost predicate IsLabel(spec: Spec, path: string, route: Option<string>) {
    var labelled := Labelled(spec, path, |spec.paths|);
    if labelled == {} then route == None
    else exists b: nat :: Best(spec.paths, labelled, b) && route == Some(spec.paths[b].template)
  }

  // ---- agreement with the router ----

  /** Only literal segments and whole `{name}` segments. */
  predicate Simple(template: string) {
    forall t | t in Split(template, '/') :: '{' !in t || Whole(t)
  }

  /** No servers anywhere, every path inline, every template simple. */
  ghost predicate Plain(spec: Spec) {
    spec.servers == [] &&
    forall j | 0 <= j < |spec.paths| ::
      spec.paths[j].ref.Inline? && OneServerList(spec.paths[j].ref.item) && Simple(spec.paths[j].template)
  }

  lemma SegmentsAgree(t: string, actual: string, decode: string -> string)
    requires ('{' !in t || Whole(t)) && '%' !in actual
    ensures Segment(t, Decoded(actual, decode)).ok <==> SegmentMatches(t, actual)
  {}

  lemma {:induction false} SplitKeepsOut(s: string, sep: char, c: char)
    requires c !in s
    ensures forall p | p in Split(s, sep) :: c !in p
  {
    if s != "" {
      SplitKeepsOut(s[1..], sep, c);
    }
  }

  lemma PathsAgree(template: string, path: string, decode: string -> string)
    requires Simple(template) && '%' !in path
    ensures MatchedPath(template, path, decode).Some? <==> TemplateMatches(template, path)
  {
    var ts, segments := Split(template, '/'), Split(path, '/');
    PathMatches(template, path, decode);
    SplitKeepsOut(path, '/', '%');
    if |ts| == |segments| {
      forall i | 0 <= i < |ts|
        ensures Segment(ts[i], Decoded(segments[i], decode)).ok <==> SegmentMatches(ts[i], segments[i])
      {
        assert ts[i] in ts && segments[i] in segments;
        SegmentsAgree(ts[i], segments[i], decode);
      }
    }
  }

  lemma HitsAgree(spec: Spec, req: Request, j: nat)
    requires Plain(spec) && '%' !in req.path && j < |spec.paths|
    ensures Hit(spec, spec.paths[j], req).Some? <==> j in Labelled(spec, req.path, |spec.paths|)
  {
    var path := spec.paths[j];
    assert Servers(spec, path.ref.item, req.verb) == [];
    assert Candidates([], req.path) == [req.path];
    assert [req.path][1..] == [];
    PathsAgree(path.template, WithoutTrailingSlash(req.path), req.decode);
    assert FirstMatch(path.template, [req.path], req.decode).Some? <==>
           MatchedPath(path.template, WithoutTrailingSlash(req.path), req.decode).Some?;
  }

  lemma LabelledHits(spec: Spec, req: Request)
    requires Plain(spec) && '%' !in req.path
    ensures forall j | 0 <= j < |spec.paths| ::
      Hit(spec, spec.paths[j], req).Some? <==> j in Labelled(spec, req.path, |spec.paths|)
  {
    forall j | 0 <= j < |spec.paths|
      ensures Hit(spec, spec.paths[j], req).Some? <==> j in Labelled(spec, req.path, |spec.paths|)
    {
      HitsAgree(spec, req, j);
    }
  }

  /**
   * On plain specifications and paths without percent signs, the label is the sentinel exactly when the router
   * finds nothing, for every method...
   */
  lemma UnlabelledIsNotFound(spec: Spec, req: Request, route: Option<string>, r: RouteMatch)
    requires Plain(spec) && '%' !in req.path
    requires IsLabel(spec, req.path, route) && IsRoute(spec, req, r)
    ensures route == None <==> r == NotFound
  {
    LabelledHits(spec, req);
    OneRoute(spec, req, r, r);
  }

  /** ... and when the labelled template has the method, the router returns that template. */
  lemma LabelIsRoute(spec: Spec, req: Request, template: string, r: RouteMatch) returns (b: nat)
    requires Plain(spec) && '%' !in req.path
    requires IsLabel(spec, req.path, Some(template)) && IsRoute(spec, req, r)
    ensures b < |spec.paths| && spec.paths[b].template == template && Hit(spec, spec.paths[b], req).Some?
    ensures Serves(spec, spec.paths[b], req) ==> r == FoundIn(spec, spec.paths[b], req)
  {
    LabelledHits(spec, req);
    var labelled := Labelled(spec, req.path, |spec.paths|);
    b :| Best(spec.paths, labelled, b) && template == spec.paths[b].template;
    if Serves(spec, spec.paths[b], req) {
      BestServes(spec, req, labelled, b, r);
    }
  }

  lemma BestServes(spec: Spec, req: Request, labelled: set<nat>, b: nat, r: RouteMatch)
    requires Best(spec.paths, labelled, b) && IsRoute(spec, req, r)
    requires forall j | 0 <= j < |spec.paths| :: Hit(spec, spec.paths[j], req).Some? <==> j in labelled
    requires Serves(spec, spec.paths[b], req)
    ensures r == FoundIn(spec, spec.paths[b], req)
  {
    var serving := Serving(spec, req, |spec.paths|);
    assert b in serving && serving <= labelled;
    assert Best(spec.paths, serving, b);
    var a: nat :| Best(spec.paths, serving, a) && r == FoundIn(spec, spec.paths[a], req);
    BestIsUnique(spec.paths, serving, a, b);
  }
}
