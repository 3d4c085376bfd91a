/** `RefResolver`: references into a schema document, and the index of the names its nodes declare. */
module RefResolver {
  import opened Strings
  import opened Json
  import opened Keys
  import opened Pointers

  /** The list of references already entered, grown and shrunk in place by the walkers. */
  class RefStack {
    var refs: seq<string>

    constructor ()
      ensures refs == []
    {
      refs := [];
    }
  }

  datatype Document = Document(root: Value, ids: map<string, seq<string>>, external: map<string, Value>)

  /** `resolve` with nothing visited yet; an anchor the index does not know resolves to the root. */
  function Resolve(doc: Document, r: string): Option<Value> {
    if r == "#" then Some(doc.root)
    else if StartsWith(r, "#/") then Follow(doc.root, Split(r[2..], '/'))
    else if StartsWith(r, "#") then
      if r[1..] in doc.ids then Follow(doc.root, doc.ids[r[1..]])
      else if r in doc.ids then Follow(doc.root, doc.ids[r])
      else Some(doc.root)
    else if r in doc.external then Some(doc.external[r])
    else if r in doc.ids then Follow(doc.root, doc.ids[r])
    else None
  }

  predicate Refuses(visited: seq<string>, r: string, maxDepth: nat) {
    |visited| >= maxDepth || r in visited
  }

  /** `resolve`: a reference visited before, or one too many, is refused; any other is noted and looked up. */
  method ResolveNoting(doc: Document, r: string, visited: RefStack, maxDepth: nat) returns (target: Option<Value>)
    modifies visited
    ensures target == if Refuses(old(visited.refs), r, maxDepth) then None else Resolve(doc, r)
    ensures visited.refs == Noted(old(visited.refs), [r], maxDepth)
  {
    if |visited.refs| >= maxDepth || r in visited.refs {
      return None;
    }
    visited.refs := visited.refs + [r];
    return Resolve(doc, r);
  }

  /** What a lookup behind `earlier` ones gives. */
  function Answer(doc: Document, earlier: seq<string>, r: string, maxDepth: nat): Option<Value> {
    if |Firsts(earlier)| >= maxDepth || r in earlier then None else Resolve(doc, r)
  }

  /** One more lookup, against the list its predecessors left: call by call, a whole run. */
  method ResolveNext(doc: Document, ghost earlier: seq<string>, r: string, visited: RefStack, maxDepth: nat)
    returns (target: Option<Value>)
    requires visited.refs == Noted([], earlier, maxDepth)
    modifies visited
    ensures target == Answer(doc, earlier, r, maxDepth) && visited.refs == Noted([], earlier + [r], maxDepth)
  {
    RunNotes(earlier, maxDepth, r);
    NotedOneMore([], earlier, r, maxDepth);
    target := ResolveNoting(doc, r, visited, maxDepth);
  }

  /** What the list of visited references holds after a run of requests. */
  function Noted(visited: seq<string>, requests: seq<string>, maxDepth: nat): seq<string>
    decreases |requests|
  {
    if requests == [] then visited
    else
      var next := if Refuses(visited, requests[0], maxDepth) then visited else visited + [requests[0]];
      Noted(next, requests[1..], maxDepth)
  }

  /** The requests, each once, where it first occurs. */
  function Firsts(requests: seq<string>): (r: seq<string>)
    ensures forall x :: x in r <==> x in requests
    ensures forall i, j | 0 <= i < j < |r| :: r[i] != r[j]
  {
    if requests == [] then []
    else
      var earlier, x := Firsts(requests[..|requests| - 1]), requests[|requests| - 1];
      assert requests == requests[..|requests| - 1] + [x];
      if x in earlier then earlier else earlier + [x]
  }

  function Upto(s: seq<string>, n: nat): seq<string> {
    if |s| <= n then s else s[..n]
  }

  lemma {:induction false} NotedOneMore(visited: seq<string>, requests: seq<string>, r: string, maxDepth: nat)
    ensures Noted(visited, requests + [r], maxDepth) == Noted(Noted(visited, requests, maxDepth), [r], maxDepth)
    decreases |requests|
  {
    if requests == [] {
      assert requests + [r] == [r];
    } else {
      assert (requests + [r])[1..] == requests[1..] + [r];
      var next := if Refuses(visited, requests[0], maxDepth) then visited else visited + [requests[0]];
      NotedOneMore(next, requests[1..], r, maxDepth);
    }
  }

  /**
   * Over a whole run of requests the list holds the first `maxDepth` different ones, each once, in the order they came.
   * So the next request is answered exactly when it is new and fewer than `maxDepth` different ones came before it.
   */
  lemma {:induction false} RunNotes(requests: seq<string>, maxDepth: nat, r: string)
    ensures Noted([], requests, maxDepth) == Upto(Firsts(requests), maxDepth)
    ensures Refuses(Noted([], requests, maxDepth), r, maxDepth) <==> |Firsts(requests)| >= maxDepth || r in requests
    decreases |requests|
  {
    if requests != [] {
      var earlier, x := requests[..|requests| - 1], requests[|requests| - 1];
      assert requests == earlier + [x];
      RunNotes(earlier, maxDepth, x);
      NotedOneMore([], earlier, x, maxDepth);
      var before := Noted([], earlier, maxDepth);
      assert [x][1..] == [];
      assert Noted(before, [x], maxDepth) == if Refuses(before, x, maxDepth) then before else before + [x];
    }
  }

  // ---- a resolved node brings no reference the document does not contain ----

  ghost function DocRefs(doc: Document): set<string> {
    Refs(doc.root) + (set k, r | k in doc.external && r in Refs(doc.external[k]) :: r)
  }

  lemma {:induction false} FollowAddsNoReference(v: Value, tokens: seq<string>)
    requires Follow(v, tokens).Some?
    ensures Refs(Follow(v, tokens).value) <= Refs(v)
    decreases |tokens|
  {
    if tokens != [] {
      var child := Step(v, tokens[0]).value;
      FollowAddsNoReference(child, tokens[1..]);
      match v
      case Obj(fields) => assert child == fields[Unescape(tokens[0])];
      case Arr(items) => assert child in items;
      case _ =>
    }
  }

  lemma ResolveAddsNoReference(doc: Document, r: string)
    requires Resolve(doc, r).Some?
    ensures Refs(Resolve(doc, r).value) <= DocRefs(doc)
  {
    if r == "#" {
    } else if StartsWith(r, "#/") {
      FollowAddsNoReference(doc.root, Split(r[2..], '/'));
    } else if StartsWith(r, "#") {
      if r[1..] in doc.ids {
        FollowAddsNoReference(doc.root, doc.ids[r[1..]]);
      } else if r in doc.ids {
        FollowAddsNoReference(doc.root, doc.ids[r]);
      }
    } else if r !in doc.external {
      FollowAddsNoReference(doc.root, doc.ids[r]);
    }
  }

  /** Every existing path, the empty one included, is reached through the reference printed for it. */
  lemma ReferenceRoundTrip(doc: Document, path: seq<string>)
    requires NodeAt(doc.root, path).Some?
    ensures Resolve(doc, "#" + Tail(path)) == NodeAt(doc.root, path)
  {
    if path == [] {
      assert "#" + Tail(path) == "#";
    } else {
      TokensOfPointer(path);
      FollowEscaped(doc.root, path);
    }
  }

  // ---- the index of declared names ----

  /** Everything up to and including the last `c`. */
  function UpToLast(s: string, c: char): string {
    if s == [] then ""
    else if s[|s| - 1] == c then s
    else UpToLast(s[..|s| - 1], c)
  }

  function BeforeHash(s: string): string {
    match IndexOfChar(s, '#')
    case Some(p) => s[..p]
    case None => s
  }

  /** `resolve_against_base`. */
  function ResolveAgainstBase(base: Option<string>, id: string): string {
    if base.None? then id
    else if Find(id, "://").Some? then id
    else if StartsWith(id, "#") then BeforeHash(base.value) + "#" + id[1..]
    else
      var trimmed := if StartsWith(id, "./") then id[2..] else id;
      UpToLast(BeforeHash(base.value), '/') + trimmed
  }

  function KeywordNames(v: Value, keyword: string, base: Option<string>): set<string> {
    if v.HasStr(keyword) then {v.fields[keyword].s, ResolveAgainstBase(base, v.fields[keyword].s)} else {}
  }

  function AnchorNames(v: Value): set<string> {
    if v.HasStr("$anchor") then {v.fields["$anchor"].s} else {}
  }

  /** The names one node declares: `$id` and `id`, as written and resolved, and the bare `$anchor`. */
  function OwnNames(v: Value, base: Option<string>): set<string> {
    KeywordNames(v, "$id", base) + KeywordNames(v, "id", base) + AnchorNames(v)
  }

  /** The base for the children: a `$id` always re-roots, an `id` only where there is no base yet. */
  function NextBase(v: Value, base: Option<string>): Option<string> {
    if v.HasStr("$id") then Some(ResolveAgainstBase(base, v.fields["$id"].s))
    else if v.HasStr("id") && base.None? then Some(v.fields["id"].s)
    else base
  }

  /** The node at `path` below `v` declares `name`, each node's base coming from the ones above it. */
  predicate NamedAt(v: Value, base: Option<string>, path: seq<string>, name: string)
    decreases |path|
  {
    if path == [] then name in OwnNames(v, base)
    else v.Has(path[0]) && NamedAt(v.fields[path[0]], NextBase(v, base), path[1..], name)
  }

  /** Every name the index gains from `v`. */
  ghost function Names(v: Value, base: Option<string>): set<string> {
    if v.Obj? then
      OwnNames(v, base) + (set k, n | k in v.fields && n in Names(v.fields[k], NextBase(v, base)) :: n)
    else {}
  }

  /** Records `path` under each of `names`. */
  ghost function Enter(index: map<string, seq<string>>, names: set<string>, path: seq<string>)
    : map<string, seq<string>>
  {
    map n | n in index.Keys + names :: if n in names then path else index[n]
  }

  lemma EnterTwice(index: map<string, seq<string>>, a: set<string>, b: set<string>, path: seq<string>)
    ensures Enter(Enter(index, a, path), b, path) == Enter(index, a + b, path)
  {
  }

  ghost function Collect(v: Value, path: seq<string>, base: Option<string>, acc: map<string, seq<string>>)
    : map<string, seq<string>>
    decreases v, 1, 0
  {
    if v.Obj? then
      CollectFields(v, Sorted(v.fields.Keys), path, base, Enter(acc, OwnNames(v, base), path))
    else acc
  }

  /** The fields of `v` named by `order`, later ones overriding earlier ones. */
  ghost function CollectFields(v: Value, order: seq<string>, path: seq<string>, base: Option<string>,
                               acc: map<string, seq<string>>): map<string, seq<string>>
    requires v.Obj? && forall k | k in order :: k in v.fields
    decreases v, 0, |order|
  {
    if order == [] then acc
    else
      CollectFields(v, order[1..], path, base,
                    Collect(v.fields[order[0]], path + [order[0]], NextBase(v, base), acc))
  }

  class IdIndex {
    var paths: map<string, seq<string>>

    constructor ()
      ensures paths == map[]
    {
      paths := map[];
    }

    method NoteKeyword(v: Value, keyword: string, path: seq<string>, base: Option<string>)
      modifies this
      ensures paths == Enter(old(paths), KeywordNames(v, keyword, base), path)
    {
      if v.HasStr(keyword) {
        var id := v.fields[keyword].s;
        var resolved := ResolveAgainstBase(base, id);
        paths := paths[id := path];
        if resolved != id {
          paths := paths[resolved := path];
        }
      }
    }

    /** Enters the names one node declares and returns the base its children see. */
    method NoteOwn(v: Value, path: seq<string>, base: Option<string>) returns (newBase: Option<string>)
      modifies this
      ensures newBase == NextBase(v, base)
      ensures paths == Enter(old(paths), OwnNames(v, base), path)
    {
      newBase := NewBase(v, base);
      ghost var before := paths;
      NoteKeyword(v, "$id", path, base);
      NoteKeyword(v, "id", path, base);
      NoteAnchor(v, path);
      EnterTwice(before, KeywordNames(v, "$id", base), KeywordNames(v, "id", base), path);
      EnterTwice(before, KeywordNames(v, "$id", base) + KeywordNames(v, "id", base), AnchorNames(v), path);
    }

    method NoteAnchor(v: Value, path: seq<string>)
      modifies this
      ensures paths == Enter(old(paths), AnchorNames(v), path)
    {
      if v.HasStr("$anchor") {
        paths := paths[v.fields["$anchor"].s := path];
      }
    }

    method NewBase(v: Value, base: Option<string>) returns (newBase: Option<string>)
      ensures newBase == NextBase(v, base)
    {
      newBase := base;
      if v.HasStr("$id") {
        newBase := Some(ResolveAgainstBase(base, v.fields["$id"].s));
      }
      if v.HasStr("id") && newBase.None? {
        newBase := Some(ResolveAgainstBase(base, v.fields["id"].s));
      }
    }

    /** `collect_ids`. */
    method CollectIds(v: Value, path: seq<string>, base: Option<string>)
      modifies this
      ensures paths == Collect(v, path, base, old(paths))
      decreases v
    {
      if !v.Obj? {
        return;
      }
      var newBase := NoteOwn(v, path, base);
      var todo := v.fields.Keys;
      while todo != {}
        invariant todo <= v.fields.Keys
        invariant CollectFields(v, Sorted(todo), path, base, paths) == Collect(v, path, base, old(paths))
        decreases todo
      {
        var key, rest := TakeFirst(todo);
        assert Sorted(todo)[1..] == Sorted(rest);
        CollectIds(v.fields[key], path + [key], newBase);
        todo := rest;
      }
    }
  }

  /** What collecting from `v` did to the index `before`. */
  ghost predicate Indexed(v: Value, path: seq<string>, base: Option<string>, names: set<string>,
                          before: map<string, seq<string>>, after: map<string, seq<string>>)
  {
    && after.Keys == before.Keys + names
    && (forall n | n in before && n !in names :: after[n] == before[n])
    && (forall n | n in names :: path <= after[n] && NamedAt(v, base, after[n][|path|..], n))
  }

  lemma {:induction false} CollectIndexes(v: Value, path: seq<string>, base: Option<string>,
                                          acc: map<string, seq<string>>)
    ensures Indexed(v, path, base, Names(v, base), acc, Collect(v, path, base, acc))
    decreases v, 1, 0
  {
    if v.Obj? {
      var own := Enter(acc, OwnNames(v, base), path);
      var order := Sorted(v.fields.Keys);
      assert Indexed(v, path, base, OwnNames(v, base), acc, own) by {
        assert path[|path|..] == [];
      }
      CollectFieldsIndexes(v, order, OwnNames(v, base), path, base, acc, own);
      NamesSplit(v, order, base);
    }
  }

  ghost function NamesOf(v: Value, order: seq<string>, base: Option<string>): set<string>
    requires v.Obj? && forall k | k in order :: k in v.fields
  {
    set k, n | k in order && n in Names(v.fields[k], NextBase(v, base)) :: n
  }

  lemma NamesSplit(v: Value, order: seq<string>, base: Option<string>)
    requires v.Obj? && forall k :: k in order <==> k in v.fields
    ensures Names(v, base) == OwnNames(v, base) + NamesOf(v, order, base)
  {
  }

  lemma {:induction false} CollectFieldsIndexes(v: Value, order: seq<string>, done: set<string>, path: seq<string>,
                                                base: Option<string>, acc: map<string, seq<string>>,
                                                own: map<string, seq<string>>)
    requires v.Obj? && forall k | k in order :: k in v.fields
    requires Indexed(v, path, base, done, acc, own)
    ensures Indexed(v, path, base, done + NamesOf(v, order, base), acc, CollectFields(v, order, path, base, own))
    decreases v, 0, |order|
  {
    if order == [] {
      assert NamesOf(v, order, base) == {};
      assert done + NamesOf(v, order, base) == done;
    } else {
      var k, child := order[0], v.fields[order[0]];
      var next := Collect(child, path + [k], NextBase(v, base), own);
      CollectIndexes(child, path + [k], NextBase(v, base), own);
      ChildIndexed(v, k, done, path, base, acc, own, next);
      var names := Names(child, NextBase(v, base));
      CollectFieldsIndexes(v, order[1..], done + names, path, base, acc, next);
      assert order == [k] + order[1..];
      assert done + names + NamesOf(v, order[1..], base) == done + NamesOf(v, order, base);
    }
  }

  /** What collecting from one child did, seen from its parent. */
  lemma ChildIndexed(v: Value, k: string, done: set<string>, path: seq<string>, base: Option<string>,
                     acc: map<string, seq<string>>, own: map<string, seq<string>>, next: map<string, seq<string>>)
    requires v.Has(k) && Indexed(v, path, base, done, acc, own)
    requires Indexed(v.fields[k], path + [k], NextBase(v, base), Names(v.fields[k], NextBase(v, base)), own, next)
    ensures Indexed(v, path, base, done + Names(v.fields[k], NextBase(v, base)), acc, next)
  {
    var names := Names(v.fields[k], NextBase(v, base));
    forall n | n in names
      ensures path <= next[n] && NamedAt(v, base, next[n][|path|..], n)
    {
      var rel := next[n][|path|..];
      assert rel[0] == k && rel[1..] == next[n][|path| + 1..];
    }
  }

  lemma {:induction false} NamedFollows(v: Value, base: Option<string>, path: seq<string>, name: string)
    requires NamedAt(v, base, path, name)
    requires forall k | k in path :: Plain(k)
    ensures Follow(v, path).Some?
    ensures exists b: Option<string> :: name in OwnNames(Follow(v, path).value, b)
    decreases |path|
  {
    if path == [] {
      assert name in OwnNames(v, base);
    } else {
      UnescapeFixes(path[0]);
      assert path == [path[0]] + path[1..];
      NamedFollows(v.fields[path[0]], NextBase(v, base), path[1..], name);
    }
  }

  /** The index built for a document: the names declared anywhere in it, each with the path of its node. */
  ghost function IndexOf(root: Value): map<string, seq<string>> {
    Collect(root, [], None, map[])
  }

  ghost predicate DeclaredBy(node: Value, name: string) {
    exists base: Option<string> :: name in OwnNames(node, base)
  }

  /** The index knows exactly the declared names; one whose path has plain keys leads to a node declaring it. */
  lemma IndexedNamesFollow(root: Value, name: string)
    ensures name in IndexOf(root) <==> name in Names(root, None)
    ensures name in IndexOf(root) && (forall k | k in IndexOf(root)[name] :: Plain(k)) ==>
              var node := Follow(root, IndexOf(root)[name]);
              node.Some? && DeclaredBy(node.value, name)
  {
    CollectIndexes(root, [], None, map[]);
    if name in IndexOf(root) && forall k | k in IndexOf(root)[name] :: Plain(k) {
      var path := IndexOf(root)[name];
      assert path[0..] == path;
      NamedFollows(root, None, path, name);
    }
  }

  /** So does a reference by that name, unless the caller supplied its own schema for it. */
  lemma IndexedNamesResolve(doc: Document, name: string)
    requires doc.ids == IndexOf(doc.root) && name in doc.ids
    requires name !in doc.external && !StartsWith(name, "#")
    requires forall k | k in doc.ids[name] :: Plain(k)
    ensures Resolve(doc, name).Some? && DeclaredBy(Resolve(doc, name).value, name)
  {
    IndexedNamesFollow(doc.root, name);
    assert !StartsWith(name, "#/") by {
      assert "#" <= "#/";
    }
  }

  /** An anchor's bare name is what follows the `#` of a reference to it. */
  lemma IndexedAnchorsResolve(doc: Document, anchor: string)
    requires doc.ids == IndexOf(doc.root) && anchor in doc.ids
    requires anchor != "" && anchor[0] != '/'
    requires forall k | k in doc.ids[anchor] :: Plain(k)
    ensures var node := Resolve(doc, "#" + anchor);
            node.Some? && DeclaredBy(node.value, anchor)
  {
    IndexedNamesFollow(doc.root, anchor);
    var r := "#" + anchor;
    assert r[1..] == anchor && r[1] == anchor[0];
  }

  // ---- keys that read like escape sequences ----

  /** On the way no object holds a key beside what the key unescapes to. */
  predicate NoTwins(v: Value, path: seq<string>)
    decreases |path|
  {
    path != [] && v.Has(path[0]) ==>
      && (Unescape(path[0]) == path[0] || Unescape(path[0]) !in v.fields)
      && NoTwins(v.fields[path[0]], path[1..])
  }

  lemma {:induction false} NamedFollowsExactly(v: Value, base: Option<string>, path: seq<string>, name: string)
    requires NamedAt(v, base, path, name) && NoTwins(v, path)
    ensures Follow(v, path).Some? <==> forall k | k in path :: Plain(k)
    decreases |path|
  {
    if path != [] {
      UnescapeFixes(path[0]);
      assert path == [path[0]] + path[1..];
      if Plain(path[0]) {
        NamedFollowsExactly(v.fields[path[0]], NextBase(v, base), path[1..], name);
      }
    }
  }

  /**
   * In any document, the path kept for a name is followed to a node, which then declares the name, if and only if no
   * key on it holds an escape sequence; unless some object on the way has a key and what it unescapes to side by side.
   */
  lemma IndexFollowsExactly(root: Value, name: string)
    requires name in IndexOf(root) && NoTwins(root, IndexOf(root)[name])
    ensures var path := IndexOf(root)[name]; var node := Follow(root, path);
            && (node.Some? <==> forall k | k in path :: Plain(k))
            && (node.Some? ==> DeclaredBy(node.value, name))
  {
    CollectIndexes(root, [], None, map[]);
    var path := IndexOf(root)[name];
    assert path[0..] == path;
    NamedFollowsExactly(root, None, path, name);
    if Follow(root, path).Some? {
      NamedFollows(root, None, path, name);
    }
  }

  /** So an indexed identifier resolves, as a reference, exactly then. */
  lemma IndexedNamesResolveExactly(doc: Document, name: string)
    requires doc.ids == IndexOf(doc.root) && name in doc.ids && NoTwins(doc.root, doc.ids[name])
    requires name !in doc.external && !StartsWith(name, "#")
    ensures Resolve(doc, name).Some? <==> forall k | k in doc.ids[name] :: Plain(k)
  {
    IndexFollowsExactly(doc.root, name);
    assert !StartsWith(name, "#/") by {
      assert "#" <= "#/";
    }
  }

  /** One node declaring `name`, behind a chain of keys. */
  function Nested(path: seq<string>, name: string): (v: Value)
    ensures v.Obj?
  {
    if path == [] then Obj(map["$id" := Str(name)]) else Obj(map[path[0] := Nested(path[1..], name)])
  }

  lemma {:induction false} NestedNames(path: seq<string>, name: string, p: seq<string>, n: string)
    requires NamedAt(Nested(path, name), None, p, n)
    ensures p == path && n == name
    decreases |path|
  {
    var v := Nested(path, name);
    if path == [] {
      LeafNames(name, p, n);
    } else {
      assert OwnNames(v, None) == {} && NextBase(v, None) == None;
      assert p[0] == path[0];
      NestedNames(path[1..], name, p[1..], n);
      assert p == [p[0]] + p[1..] && path == [path[0]] + path[1..];
    }
  }

  lemma LeafNames(name: string, p: seq<string>, n: string)
    requires NamedAt(Obj(map["$id" := Str(name)]), None, p, n)
    ensures p == [] && n == name
  {
    var v := Obj(map["$id" := Str(name)]);
    assert OwnNames(v, None) == {name};
    if p != [] {
      TextNamesNothing(name, NextBase(v, None), p[1..], n);
    }
  }

  lemma {:induction false} NestedDeclares(path: seq<string>, name: string)
    ensures name in Names(Nested(path, name), None)
  {
    var v := Nested(path, name);
    if path == [] {
      assert name in OwnNames(v, None);
    } else {
      assert NextBase(v, None) == None;
      NestedDeclares(path[1..], name);
      assert v.fields[path[0]] == Nested(path[1..], name);
    }
  }

  lemma {:induction false} NestedFollows(path: seq<string>, name: string)
    ensures Follow(Nested(path, name), path) == Some(Nested([], name)) <==> forall k | k in path :: Plain(k)
    ensures (exists k | k in path :: !Plain(k)) ==> Follow(Nested(path, name), path).None?
  {
    if path != [] {
      UnescapeFixes(path[0]);
      NestedFollows(path[1..], name);
      assert path == [path[0]] + path[1..];
    }
  }

  lemma TextNamesNothing(text: string, base: Option<string>, path: seq<string>, name: string)
    ensures !NamedAt(Str(text), base, path, name)
  {
  }

  lemma NestedIndex(path: seq<string>, name: string)
    ensures IndexOf(Nested(path, name)) == map[name := path]
  {
    var root := Nested(path, name);
    CollectIndexes(root, [], None, map[]);
    NestedDeclares(path, name);
    OneName(root, path, name, IndexOf(root));
  }

  lemma OneName(root: Value, path: seq<string>, name: string, ids: map<string, seq<string>>)
    requires root == Nested(path, name) && name in Names(root, None)
    requires Indexed(root, [], None, Names(root, None), map[], ids)
    ensures ids == map[name := path]
  {
    forall n | n in ids
      ensures n == name && ids[n] == path
    {
      assert ids[n][0..] == ids[n];
      NestedNames(path, name, ids[n], n);
    }
    assert ids.Keys == {name};
  }

  /** A name declared behind any chain of keys is found again exactly when no key holds an escape sequence. */
  lemma IndexIgnoresEscapes(path: seq<string>, name: string)
    ensures var root := Nested(path, name);
            var ids := IndexOf(root);
            && ids == map[name := path]
            && (Follow(root, ids[name]) == Some(Nested([], name)) <==> forall k | k in path :: Plain(k))
  {
    NestedIndex(path, name);
    NestedFollows(path, name);
  }
}
