/** The names a document declares, against the identifiers of the nodes around them, and the index as a whole. */
module BaseUris {
  import opened Strings
  import opened Json
  import opened Keys
  import opened RefResolver
  import Pointers

  // ---- joining ----

  /** `base` is `stem`, or `stem` with a fragment behind it. */
  predicate StemOf(base: string, stem: string) {
    && '#' !in stem && StartsWith(base, stem)
    && (base == stem || base[|stem|] == '#')
  }

  /** `stem` is a directory, empty or closed by a slash, and a file in it. */
  predicate DirectoryOf(stem: string, dir: string) {
    && StartsWith(stem, dir) && '/' !in stem[|dir|..]
    && (dir == "" || EndsWith(dir, "/"))
  }

  predicate Absolute(id: string) {
    exists i | 0 <= i <= |id| :: StartsWith(id[i..], "://")
  }

  /**
   * `r` is an identifier read against a base: an absolute one stands for itself, a fragment takes the place of the
   * base's, and any other is put into the base's directory, less a leading `./`.
   */
  ghost predicate JoinedTo(base: Option<string>, id: string, r: string) {
    if base.None? || Absolute(id) then r == id
    else if StartsWith(id, "#") then exists stem :: StemOf(base.value, stem) && r == stem + id
    else exists stem, dir :: StemOf(base.value, stem) && DirectoryOf(stem, dir)
                             && r == dir + if StartsWith(id, "./") then id[2..] else id
  }

  lemma StemIs(base: string)
    ensures forall stem :: StemOf(base, stem) <==> stem == BeforeHash(base)
  {
    var stem := BeforeHash(base);
    if '#' !in base {
      assert stem == base;
    }
    forall other | StemOf(base, other)
      ensures other == stem
    {
      assert other == base[..|other|];
    }
  }

  lemma {:induction false} UpToLastIs(s: string, c: char)
    ensures var up := UpToLast(s, c);
            up <= s && c !in s[|up|..] && (up == "" || up[|up| - 1] == c)
  {
    if s != [] && s[|s| - 1] != c {
      var shorter := s[..|s| - 1];
      UpToLastIs(shorter, c);
      var up := UpToLast(shorter, c);
      assert s[|up|..] == shorter[|up|..] + [s[|s| - 1]];
    }
  }

  lemma DirectoryIs(stem: string)
    ensures forall dir :: DirectoryOf(stem, dir) <==> dir == UpToLast(stem, '/')
  {
    var up := UpToLast(stem, '/');
    UpToLastIs(stem, '/');
    assert up != "" ==> up[|up| - 1..] == [up[|up| - 1]];
    forall dir | DirectoryOf(stem, dir)
      ensures dir == up
    {
      assert dir != "" ==> dir[|dir| - 1] == '/';
      assert dir == stem[..|dir|];
    }
  }

  lemma AbsoluteIs(id: string)
    ensures Absolute(id) <==> Find(id, "://").Some?
  {
    var at := Find(id, "://");
    if at.Some? {
      assert id[at.value..][..3] == id[at.value..at.value + 3];
    }
  }

  /** Joining gives just that, for every base and identifier. */
  lemma JoinIsExact(base: Option<string>, id: string)
    ensures forall r :: JoinedTo(base, id, r) <==> r == ResolveAgainstBase(base, id)
  {
    AbsoluteIs(id);
    if base.Some? {
      StemIs(base.value);
      DirectoryIs(BeforeHash(base.value));
      StartsWithChar(id, '#');
      assert StemOf(base.value, BeforeHash(base.value));
      assert DirectoryOf(BeforeHash(base.value), UpToLast(BeforeHash(base.value), '/'));
      if StartsWith(id, "#") {
        var stem := BeforeHash(base.value);
        assert stem + "#" + id[1..] == stem + id;
      }
    }
  }

  // ---- the base in force ----

  /** The node at the end of a path of keys. */
  function At(v: Value, path: seq<string>): Option<Value>
    decreases |path|
  {
    if path == [] then Some(v)
    else if v.Has(path[0]) then At(v.fields[path[0]], path[1..])
    else None
  }

  /** The node `i` steps down the path, above its end, writes `s` under the keyword. */
  predicate WritesAbove(root: Value, path: seq<string>, i: nat, keyword: string, s: string) {
    && i < |path|
    && var node := At(root, path[..i]);
       node.Some? && node.value.Has(keyword) && node.value.fields[keyword] == Str(s)
  }

  ghost predicate NoneAbove(root: Value, path: seq<string>, from: nat, upto: nat, keyword: string) {
    forall j: nat, s | from <= j < upto :: !WritesAbove(root, path, j, keyword, s)
  }

  /** The base is the `$id` of the nearest node above that has one, read against the base in force there. */
  ghost predicate NearestId(root: Value, path: seq<string>, b: Option<string>, i: nat, s: string,
                            outer: Option<string>)
    decreases |path|, 0
  {
    && WritesAbove(root, path, i, "$id", s) && NoneAbove(root, path, i + 1, |path|, "$id")
    && InForce(root, path[..i], outer) && b.Some? && JoinedTo(outer, s, b.value)
  }

  /** Where no node above has a `$id`, the base is the `id` of the topmost node that has one, if any. */
  ghost predicate TopmostId(root: Value, path: seq<string>, b: Option<string>) {
    && NoneAbove(root, path, 0, |path|, "$id")
    && if b.None? then NoneAbove(root, path, 0, |path|, "id")
       else exists i: nat :: WritesAbove(root, path, i, "id", b.value) && NoneAbove(root, path, 0, i, "id")
  }

  ghost predicate InForce(root: Value, path: seq<string>, b: Option<string>)
    decreases |path|, 1
  {
    TopmostId(root, path, b) || exists i: nat, s, outer | i < |path| :: NearestId(root, path, b, i, s, outer)
  }

  /** The base handed down along a path. */
  function Seen(root: Value, path: seq<string>): Option<string>
    decreases |path|
  {
    if path == [] then None
    else
      var above := path[..|path| - 1];
      if At(root, above).None? then None else NextBase(At(root, above).value, Seen(root, above))
  }

  function Handed(v: Value, base: Option<string>, path: seq<string>): Option<string>
    decreases |path|
  {
    if path == [] || !v.Has(path[0]) then base
    else Handed(v.fields[path[0]], NextBase(v, base), path[1..])
  }

  lemma {:induction false} HandedOn(v: Value, base: Option<string>, path: seq<string>, k: string)
    requires At(v, path).Some? && At(v, path).value.Has(k)
    ensures At(v, path + [k]) == Some(At(v, path).value.fields[k])
    ensures Handed(v, base, path + [k]) == NextBase(At(v, path).value, Handed(v, base, path))
    decreases |path|
  {
    if path == [] {
      assert [] + [k] == [k] && [k][1..] == [];
    } else {
      assert (path + [k])[1..] == path[1..] + [k];
      HandedOn(v.fields[path[0]], NextBase(v, base), path[1..], k);
    }
  }

  lemma {:induction false} AboveExists(v: Value, path: seq<string>)
    requires path != [] && At(v, path).Some?
    ensures At(v, path[..|path| - 1]).Some? && At(v, path[..|path| - 1]).value.Has(path[|path| - 1])
    decreases |path|
  {
    if |path| > 1 {
      AboveExists(v.fields[path[0]], path[1..]);
      assert path[1..][..|path| - 2] == path[..|path| - 1][1..];
    }
  }

  lemma {:induction false} SeenIsHanded(root: Value, path: seq<string>)
    requires At(root, path).Some?
    ensures Seen(root, path) == Handed(root, None, path)
    decreases |path|
  {
    if path != [] {
      var above, k := path[..|path| - 1], path[|path| - 1];
      assert path == above + [k];
      AboveExists(root, path);
      SeenIsHanded(root, above);
      HandedOn(root, None, above, k);
    }
  }

  lemma {:induction false} NamedAtIs(v: Value, base: Option<string>, path: seq<string>, name: string)
    ensures NamedAt(v, base, path, name) <==>
              At(v, path).Some? && name in OwnNames(At(v, path).value, Handed(v, base, path))
    decreases |path|
  {
    if path != [] && v.Has(path[0]) {
      NamedAtIs(v.fields[path[0]], NextBase(v, base), path[1..], name);
    }
  }

  lemma AboveAgrees(root: Value, path: seq<string>, i: nat, keyword: string, s: string)
    requires path != [] && i < |path| - 1
    ensures WritesAbove(root, path, i, keyword, s) <==> WritesAbove(root, path[..|path| - 1], i, keyword, s)
  {
    assert path[..|path| - 1][..i] == path[..i];
  }

  lemma NoneAboveAgrees(root: Value, path: seq<string>, from: nat, upto: nat, keyword: string)
    requires path != [] && upto < |path|
    ensures NoneAbove(root, path, from, upto, keyword) <==> NoneAbove(root, path[..|path| - 1], from, upto, keyword)
  {
    forall j: nat, s | j < upto
      ensures WritesAbove(root, path, j, keyword, s) <==> WritesAbove(root, path[..|path| - 1], j, keyword, s)
    {
      AboveAgrees(root, path, j, keyword, s);
    }
    var above := path[..|path| - 1];
    assert forall j: nat, s | from <= j < upto :: WritesAbove(root, path, j, keyword, s) <==>
                                                  WritesAbove(root, above, j, keyword, s);
  }

  /** The base handed down is the base in force. */
  lemma {:induction false} SeenIsInForce(root: Value, path: seq<string>)
    requires At(root, path).Some?
    ensures InForce(root, path, Seen(root, path))
    decreases |path|
  {
    if path == [] {
      assert TopmostId(root, path, None);
    } else {
      var last := |path| - 1;
      AboveExists(root, path);
      SeenIsInForce(root, path[..last]);
      var node, outer := At(root, path[..last]).value, Seen(root, path[..last]);
      if node.HasStr("$id") {
        IdRules(root, path, node, outer);
      } else {
        assert NoneAbove(root, path, last, |path|, "$id");
        if TopmostId(root, path[..last], outer) {
          TopmostStays(root, path, node, outer);
        } else {
          NearestStays(root, path, outer);
        }
      }
    }
  }

  lemma IdRules(root: Value, path: seq<string>, node: Value, outer: Option<string>)
    requires path != [] && At(root, path[..|path| - 1]) == Some(node) && node.HasStr("$id")
    requires InForce(root, path[..|path| - 1], outer)
    ensures InForce(root, path, NextBase(node, outer))
  {
    var s := node.fields["$id"].s;
    JoinIsExact(outer, s);
    assert NearestId(root, path, NextBase(node, outer), |path| - 1, s, outer);
  }

  lemma TopmostStays(root: Value, path: seq<string>, node: Value, outer: Option<string>)
    requires path != [] && At(root, path[..|path| - 1]) == Some(node) && !node.HasStr("$id")
    requires TopmostId(root, path[..|path| - 1], outer)
    ensures TopmostId(root, path, NextBase(node, outer))
  {
    var last := |path| - 1;
    NoneAboveAgrees(root, path, 0, last, "$id");
    NoneAboveAgrees(root, path, 0, last, "id");
    if outer.Some? {
      var i: nat :| WritesAbove(root, path[..last], i, "id", outer.value) && NoneAbove(root, path[..last], 0, i, "id");
      AboveAgrees(root, path, i, "id", outer.value);
      NoneAboveAgrees(root, path, 0, i, "id");
    } else if node.HasStr("id") {
      assert WritesAbove(root, path, last, "id", node.fields["id"].s);
    }
  }

  lemma NearestOf(root: Value, path: seq<string>, b: Option<string>) returns (i: nat, s: string, outer: Option<string>)
    requires InForce(root, path, b) && !TopmostId(root, path, b)
    ensures i < |path| && NearestId(root, path, b, i, s, outer)
  {
    i, s, outer :| i < |path| && NearestId(root, path, b, i, s, outer);
  }

  lemma NearestStays(root: Value, path: seq<string>, outer: Option<string>)
    requires path != [] && At(root, path).Some?
    requires !TopmostId(root, path[..|path| - 1], outer) && InForce(root, path[..|path| - 1], outer)
    requires At(root, path[..|path| - 1]).Some? && !At(root, path[..|path| - 1]).value.HasStr("$id")
    ensures InForce(root, path, NextBase(At(root, path[..|path| - 1]).value, outer))
  {
    var last := |path| - 1;
    var i, s, b := NearestOf(root, path[..last], outer);
    AboveAgrees(root, path, i, "$id", s);
    NoneAboveAgrees(root, path, i + 1, last, "$id");
    assert path[..last][..i] == path[..i];
    assert NearestId(root, path, outer, i, s, b);
  }

  /** There is one base in force. */
  lemma {:induction false} OneInForce(root: Value, path: seq<string>, a: Option<string>, b: Option<string>)
    requires InForce(root, path, a) && InForce(root, path, b)
    ensures a == b
    decreases |path|
  {
    if TopmostId(root, path, a) {
      if a.Some? && b.Some? {
        var i: nat :| WritesAbove(root, path, i, "id", a.value) && NoneAbove(root, path, 0, i, "id");
        var j: nat :| WritesAbove(root, path, j, "id", b.value) && NoneAbove(root, path, 0, j, "id");
      }
    } else {
      var i, s, outer := NearestOf(root, path, a);
      var j, t, other := NearestOf(root, path, b);
      assert i == j && s == t;
      OneInForce(root, path[..i], outer, other);
      JoinIsExact(outer, s);
    }
  }

  // ---- what a document declares ----

  /** `name` is written under the keyword, or is what is written there read against the base. */
  ghost predicate NamesAs(node: Value, keyword: string, base: Option<string>, name: string) {
    exists s :: node.Has(keyword) && node.fields[keyword] == Str(s) && (name == s || JoinedTo(base, s, name))
  }

  /** The node at the path declares the name: by `$id` or `id`, or by `$anchor` as written. */
  ghost predicate Declaration(root: Value, path: seq<string>, name: string) {
    && At(root, path).Some?
    && var node := At(root, path).value;
       || (node.Has("$anchor") && node.fields["$anchor"] == Str(name))
       || exists base ::
            InForce(root, path, base) && (NamesAs(node, "$id", base, name) || NamesAs(node, "id", base, name))
  }

  lemma NamesAsIs(node: Value, keyword: string, base: Option<string>, name: string)
    ensures NamesAs(node, keyword, base, name) <==> name in KeywordNames(node, keyword, base)
  {
    if node.HasStr(keyword) {
      var s := node.fields[keyword].s;
      JoinIsExact(base, s);
      assert node.fields[keyword] == Str(s);
    }
  }

  lemma DeclarationIs(root: Value, path: seq<string>, name: string)
    ensures Declaration(root, path, name) <==> NamedAt(root, None, path, name)
  {
    NamedAtIs(root, None, path, name);
    if At(root, path).Some? {
      var node, base := At(root, path).value, Seen(root, path);
      SeenIsHanded(root, path);
      SeenIsInForce(root, path);
      forall other | InForce(root, path, other)
        ensures other == base
      {
        OneInForce(root, path, base, other);
      }
      NamesAsIs(node, "$id", base, name);
      NamesAsIs(node, "id", base, name);
    }
  }

  // ---- the last declaration counts ----

  /** The order in which nodes are visited: a node before those below it, these by their keys. */
  predicate Earlier(p: seq<string>, q: seq<string>)
    decreases |p|
  {
    && q != []
    && (p == [] || Before(p[0], q[0]) || (p[0] == q[0] && Earlier(p[1..], q[1..])))
  }

  predicate Under(path: seq<string>, keys: seq<string>) {
    path == [] || path[0] in keys
  }

  /** Of the paths under these keys that name it, this is the last. */
  ghost predicate LastUnder(v: Value, base: Option<string>, keys: seq<string>, path: seq<string>, name: string) {
    && Under(path, keys) && NamedAt(v, base, path, name)
    && forall q | Under(q, keys) && NamedAt(v, base, q, name) :: q == path || Earlier(q, path)
  }

  ghost predicate Last(v: Value, base: Option<string>, path: seq<string>, name: string) {
    && NamedAt(v, base, path, name)
    && forall q | NamedAt(v, base, q, name) :: q == path || Earlier(q, path)
  }

  lemma {:induction false} NamedIsAName(v: Value, base: Option<string>, path: seq<string>, name: string)
    requires NamedAt(v, base, path, name)
    ensures name in Names(v, base)
    decreases |path|
  {
    if path != [] {
      NamedIsAName(v.fields[path[0]], NextBase(v, base), path[1..], name);
    }
  }

  /** Every name of `names` has the last of its paths under `keys` in the index. */
  ghost predicate LastsUnder(v: Value, base: Option<string>, keys: seq<string>, path: seq<string>, names: set<string>,
                             index: map<string, seq<string>>) {
    forall n | n in names :: n in index && path <= index[n] && LastUnder(v, base, keys, index[n][|path|..], n)
  }

  ghost predicate Lasts(v: Value, base: Option<string>, path: seq<string>, index: map<string, seq<string>>) {
    forall n | n in Names(v, base) :: n in index && path <= index[n] && Last(v, base, index[n][|path|..], n)
  }

  lemma {:induction false} CollectKeepsLast(v: Value, path: seq<string>, base: Option<string>,
                                            acc: map<string, seq<string>>)
    ensures Lasts(v, base, path, Collect(v, path, base, acc))
    decreases v, 1, 0
  {
    if v.Obj? {
      var own := Enter(acc, OwnNames(v, base), path);
      var order := Sorted(v.fields.Keys);
      OwnAreLast(v, path, base, acc);
      SortedRises(v.fields.Keys);
      assert [] + order == order;
      FieldsKeepLast(v, [], order, OwnNames(v, base), path, base, own);
      NamesSplit(v, order, base);
      AllUnder(v, base, path, order, CollectFields(v, order, path, base, own));
    }
  }

  lemma OwnAreLast(v: Value, path: seq<string>, base: Option<string>, acc: map<string, seq<string>>)
    requires v.Obj?
    ensures LastsUnder(v, base, [], path, OwnNames(v, base), Enter(acc, OwnNames(v, base), path))
  {
    assert path[|path|..] == [];
  }

  lemma AllUnder(v: Value, base: Option<string>, path: seq<string>, order: seq<string>, index: map<string, seq<string>>)
    requires v.Obj? && forall k :: k in order <==> k in v.fields
    requires LastsUnder(v, base, order, path, OwnNames(v, base) + NamesOf(v, order, base), index)
    ensures Lasts(v, base, path, index)
  {
    NamesSplit(v, order, base);
    forall q, n | NamedAt(v, base, q, n)
      ensures Under(q, order)
    {
    }
  }

  lemma {:induction false} FieldsKeepLast(v: Value, seen: seq<string>, order: seq<string>, done: set<string>,
                                          path: seq<string>, base: Option<string>, own: map<string, seq<string>>)
    requires v.Obj? && forall k | k in seen + order :: k in v.fields
    requires forall i, j | 0 <= i < j < |seen + order| :: Before((seen + order)[i], (seen + order)[j])
    requires LastsUnder(v, base, seen, path, done, own)
    ensures LastsUnder(v, base, seen + order, path, done + NamesOf(v, order, base),
                       CollectFields(v, order, path, base, own))
    decreases v, 0, |order|
  {
    if order == [] {
      assert NamesOf(v, order, base) == {};
      assert done + NamesOf(v, order, base) == done && seen + order == seen;
    } else {
      var k, child := order[0], v.fields[order[0]];
      assert (seen + order)[|seen|] == k;
      var next := Collect(child, path + [k], NextBase(v, base), own);
      CollectKeepsLast(child, path + [k], NextBase(v, base), own);
      CollectIndexes(child, path + [k], NextBase(v, base), own);
      forall s | s in seen
        ensures Before(s, k)
      {
        var i :| 0 <= i < |seen| && seen[i] == s;
        assert (seen + order)[i] == s;
      }
      OneFieldMore(v, seen, k, done, path, base, own, next);
      assert (seen + [k]) + order[1..] == seen + order;
      var names := Names(child, NextBase(v, base));
      FieldsKeepLast(v, seen + [k], order[1..], done + names, path, base, next);
      assert order == [k] + order[1..];
      assert done + names + NamesOf(v, order[1..], base) == done + NamesOf(v, order, base);
    }
  }

  lemma OneFieldMore(v: Value, seen: seq<string>, k: string, done: set<string>, path: seq<string>,
                     base: Option<string>, own: map<string, seq<string>>, next: map<string, seq<string>>)
    requires v.Has(k) && forall s | s in seen :: Before(s, k)
    requires LastsUnder(v, base, seen, path, done, own)
    requires Indexed(v.fields[k], path + [k], NextBase(v, base), Names(v.fields[k], NextBase(v, base)), own, next)
    requires Lasts(v.fields[k], NextBase(v, base), path + [k], next)
    ensures LastsUnder(v, base, seen + [k], path, done + Names(v.fields[k], NextBase(v, base)), next)
  {
    var names := Names(v.fields[k], NextBase(v, base));
    forall n | n in done + names
      ensures n in next && path <= next[n] && LastUnder(v, base, seen + [k], next[n][|path|..], n)
    {
      if n in names {
        var p := next[n];
        assert p[|path|..][0] == k && p[|path|..][1..] == p[|path + [k]|..];
        LaterFieldIsLast(v, seen, k, base, p[|path|..], n);
      } else {
        EarlierFieldStays(v, seen, k, base, next[n][|path|..], n);
      }
    }
  }

  lemma LaterFieldIsLast(v: Value, seen: seq<string>, k: string, base: Option<string>, p: seq<string>, name: string)
    requires v.Has(k) && forall s | s in seen :: Before(s, k)
    requires p != [] && p[0] == k && Last(v.fields[k], NextBase(v, base), p[1..], name)
    ensures LastUnder(v, base, seen + [k], p, name)
  {
    forall q | Under(q, seen + [k]) && NamedAt(v, base, q, name)
      ensures q == p || Earlier(q, p)
    {
      if q != [] && q[0] == k {
        assert NamedAt(v.fields[k], NextBase(v, base), q[1..], name);
        assert q == [k] + q[1..] && p == [k] + p[1..];
      }
    }
  }

  lemma EarlierFieldStays(v: Value, seen: seq<string>, k: string, base: Option<string>, p: seq<string>, name: string)
    requires v.Has(k) && name !in Names(v.fields[k], NextBase(v, base))
    requires LastUnder(v, base, seen, p, name)
    ensures LastUnder(v, base, seen + [k], p, name)
  {
    forall q | Under(q, seen + [k]) && NamedAt(v, base, q, name)
      ensures Under(q, seen)
    {
      if q != [] && q[0] == k {
        NamedIsAName(v.fields[k], NextBase(v, base), q[1..], name);
      }
    }
  }

  /**
   * The index of a document holds exactly the declared names, and for each of them the last of the paths that declare
   * it, each read against the base in force at its node.
   */
  lemma IndexIsExact(root: Value, name: string)
    ensures name in IndexOf(root) <==> exists path :: Declaration(root, path, name)
    ensures name in IndexOf(root) ==>
              && Declaration(root, IndexOf(root)[name], name)
              && forall q | Declaration(root, q, name) :: q == IndexOf(root)[name] || Earlier(q, IndexOf(root)[name])
  {
    CollectIndexes(root, [], None, map[]);
    CollectKeepsLast(root, [], None, map[]);
    forall q
      ensures Declaration(root, q, name) <==> NamedAt(root, None, q, name)
      ensures NamedAt(root, None, q, name) ==> name in Names(root, None)
    {
      DeclarationIs(root, q, name);
      if NamedAt(root, None, q, name) {
        NamedIsAName(root, None, q, name);
      }
    }
    if name in IndexOf(root) {
      var path := IndexOf(root)[name];
      assert path[0..] == path;
    }
  }

  /** No two paths are each visited before the other. */
  lemma {:induction false} EarlierIsOneWay(p: seq<string>, q: seq<string>)
    ensures !(Earlier(p, q) && Earlier(q, p))
    ensures p == q || Earlier(p, q) || Earlier(q, p)
    decreases |p|
  {
    if p != [] && q != [] {
      BeforeIsTotal(p[0], q[0]);
      EarlierIsOneWay(p[1..], q[1..]);
      assert p == [p[0]] + p[1..] && q == [q[0]] + q[1..];
    }
  }

  // ---- references by name ----

  /** The path declares the name, and no path visited later does. */
  ghost predicate LastDeclaration(root: Value, path: seq<string>, name: string) {
    Declaration(root, path, name) && forall q | Declaration(root, q, name) :: q == path || Earlier(q, path)
  }

  ghost predicate Undeclared(root: Value, name: string) {
    forall path :: !Declaration(root, path, name)
  }

  lemma {:induction false} PlainPathFollows(v: Value, path: seq<string>)
    requires At(v, path).Some? && forall k | k in path :: Pointers.Plain(k)
    ensures Pointers.Follow(v, path) == At(v, path)
    decreases |path|
  {
    if path != [] {
      assert path[0] in path;
      Pointers.UnescapeFixes(path[0]);
      assert path == [path[0]] + path[1..];
      PlainPathFollows(v.fields[path[0]], path[1..]);
    }
  }

  /** The index sends a name to its last declaration, where the keys on the way hold no escape sequence. */
  lemma IndexLeads(root: Value, name: string)
    ensures name !in IndexOf(root) <==> Undeclared(root, name)
    ensures forall path | LastDeclaration(root, path, name) && (forall k | k in path :: Pointers.Plain(k)) ::
              name in IndexOf(root) && Pointers.Follow(root, IndexOf(root)[name]) == At(root, path)
  {
    IndexIsExact(root, name);
    forall path | LastDeclaration(root, path, name) && (forall k | k in path :: Pointers.Plain(k))
      ensures name in IndexOf(root) && Pointers.Follow(root, IndexOf(root)[name]) == At(root, path)
    {
      EarlierIsOneWay(path, IndexOf(root)[name]);
      PlainPathFollows(root, path);
    }
  }

  /**
   * A reference by name leads to the schema the caller gave for it, or else to the node that declares the name last,
   * or nowhere.
   */
  lemma NameLeads(doc: Document, name: string, path: seq<string>)
    requires doc.ids == IndexOf(doc.root) && !StartsWith(name, "#")
    ensures name in doc.external ==> Resolve(doc, name) == Some(doc.external[name])
    ensures name !in doc.external && Undeclared(doc.root, name) ==> Resolve(doc, name) == None
    ensures name !in doc.external && LastDeclaration(doc.root, path, name) &&
            (forall k | k in path :: Pointers.Plain(k)) ==>
              Resolve(doc, name) == At(doc.root, path)
  {
    IndexLeads(doc.root, name);
    assert !StartsWith(name, "#/") by {
      assert "#" <= "#/";
    }
  }

  /**
   * A fragment that is no pointer leads to the node that declares it last, the bare name before the name with its
   * `#`; one that nothing declares leads to the whole document.
   */
  lemma AnchorLeads(doc: Document, anchor: string, path: seq<string>)
    requires doc.ids == IndexOf(doc.root) && anchor != "" && anchor[0] != '/'
    requires forall k | k in path :: Pointers.Plain(k)
    ensures LastDeclaration(doc.root, path, anchor) ==> Resolve(doc, "#" + anchor) == At(doc.root, path)
    ensures Undeclared(doc.root, anchor) && LastDeclaration(doc.root, path, "#" + anchor) ==>
              Resolve(doc, "#" + anchor) == At(doc.root, path)
    ensures Undeclared(doc.root, anchor) && Undeclared(doc.root, "#" + anchor) ==>
              Resolve(doc, "#" + anchor) == Some(doc.root)
  {
    IndexLeads(doc.root, anchor);
    IndexLeads(doc.root, "#" + anchor);
    var r := "#" + anchor;
    assert r[1..] == anchor && r[1] == anchor[0];
  }
}
