/** JSON Pointer: printing a path and following one (RFC 6901 sections 3 and 4). */
module Pointers {
  import opened Strings
  import opened Json

  /** `s.replace(from, to)` for a single character. */
  function ReplaceChar(s: string, from: char, to: string): string {
    if s == [] then [] else (if s[0] == from then to else [s[0]]) + ReplaceChar(s[1..], from, to)
  }

  /** `s.replace("ab", to)` for a two-character needle. */
  function ReplacePair(s: string, a: char, b: char, to: string): string
    decreases |s|
  {
    if s == [] then []
    else if |s| >= 2 && s[0] == a && s[1] == b then to + ReplacePair(s[2..], a, b, to)
    else [s[0]] + ReplacePair(s[1..], a, b, to)
  }

  function Escape(seg: string): string {
    ReplaceChar(ReplaceChar(seg, '~', "~0"), '/', "~1")
  }

  function Unescape(token: string): string {
    ReplacePair(ReplacePair(token, '~', '1', "/"), '~', '0', "~")
  }

  lemma {:induction false} EscapeCons(seg: string)
    requires seg != []
    ensures Escape(seg) ==
            (if seg[0] == '~' then "~0" else if seg[0] == '/' then "~1" else [seg[0]]) + Escape(seg[1..])
    ensures seg[0] == '~' ==> Escape(seg)[1..] == "0" + Escape(seg[1..])
  {
    var t := ReplaceChar(seg[1..], '~', "~0");
    if seg[0] == '~' {
      assert ReplaceChar(seg, '~', "~0") == "~0" + t;
      assert ("~0" + t)[1..] == "0" + t;
      assert ("0" + t)[1..] == t;
      assert ReplaceChar("0" + t, '/', "~1") == "0" + ReplaceChar(t, '/', "~1");
      assert "~0" + Escape(seg[1..]) == "~" + ("0" + Escape(seg[1..]));
    } else {
      assert ([seg[0]] + t)[1..] == t;
    }
  }

  /** No `/` is left, so a printed segment stays one token. */
  lemma {:induction false} EscapedHasNoSlash(seg: string)
    ensures '/' !in Escape(seg)
  {
    if seg != [] {
      EscapeCons(seg);
      EscapedHasNoSlash(seg[1..]);
    }
  }

  lemma {:induction false} UndoSlash(seg: string)
    ensures ReplacePair(Escape(seg), '~', '1', "/") == ReplaceChar(seg, '~', "~0")
  {
    if seg != [] {
      EscapeCons(seg);
      UndoSlash(seg[1..]);
      var e, rest := Escape(seg), Escape(seg[1..]);
      if seg[0] == '~' {
        assert e[1] == '0';
        assert e[1..] == "0" + rest;
        assert ("0" + rest)[1..] == rest;
        assert ReplacePair("0" + rest, '~', '1', "/") == "0" + ReplacePair(rest, '~', '1', "/");
        assert ReplacePair(e, '~', '1', "/") == "~" + ReplacePair(e[1..], '~', '1', "/");
        assert "~" + ("0" + ReplaceChar(seg[1..], '~', "~0")) == "~0" + ReplaceChar(seg[1..], '~', "~0");
      } else if seg[0] == '/' {
        assert e[2..] == rest;
      } else {
        assert e[1..] == rest;
      }
    }
  }

  lemma {:induction false} UndoTilde(seg: string)
    ensures ReplacePair(ReplaceChar(seg, '~', "~0"), '~', '0', "~") == seg
  {
    if seg != [] {
      UndoTilde(seg[1..]);
      var e, rest := ReplaceChar(seg, '~', "~0"), ReplaceChar(seg[1..], '~', "~0");
      if seg[0] == '~' {
        assert e[2..] == rest;
      } else {
        assert e[1..] == rest;
      }
      assert seg == [seg[0]] + seg[1..];
    }
  }

  /** Unescaping undoes escaping, for every string. */
  lemma UnescapeEscape(seg: string)
    ensures Unescape(Escape(seg)) == seg
  {
    UndoSlash(seg);
    UndoTilde(seg);
  }

  predicate PairAt(s: string, i: nat, a: char, b: char) {
    i + 1 < |s| && s[i] == a && s[i + 1] == b
  }

  /** A string that unescaping leaves alone: it holds neither escape sequence. */
  ghost predicate Plain(s: string) {
    forall i: nat :: !PairAt(s, i, '~', '0') && !PairAt(s, i, '~', '1')
  }

  lemma {:induction false} ReplacePairShrinks(s: string, a: char, b: char, to: char)
    ensures |ReplacePair(s, a, b, [to])| <= |s|
    ensures |ReplacePair(s, a, b, [to])| == |s| ==> ReplacePair(s, a, b, [to]) == s
    ensures ReplacePair(s, a, b, [to]) == s <==> forall i: nat :: !PairAt(s, i, a, b)
    decreases |s|
  {
    if s != [] {
      if PairAt(s, 0, a, b) {
        ReplacePairShrinks(s[2..], a, b, to);
      } else {
        ReplacePairShrinks(s[1..], a, b, to);
        assert s == [s[0]] + s[1..];
        assert forall i: nat :: PairAt(s[1..], i, a, b) ==> PairAt(s, i + 1, a, b);
        assert forall i: nat :: PairAt(s, i, a, b) ==> 0 < i && PairAt(s[1..], i - 1, a, b);
      }
    }
  }

  /** Unescaping changes a string exactly when it contains `~0` or `~1`. */
  lemma UnescapeFixes(s: string)
    ensures Unescape(s) == s <==> Plain(s)
  {
    ReplacePairShrinks(s, '~', '1', '/');
    ReplacePairShrinks(ReplacePair(s, '~', '1', "/"), '~', '0', '~');
  }

  // ---- paths ----

  function Tail(path: seq<string>): string {
    if path == [] then "" else "/" + Escape(path[0]) + Tail(path[1..])
  }

  /** `build_pointer_from_path`. */
  method BuildPointer(path: seq<string>) returns (out: string)
    ensures out == "#" + Tail(path)
  {
    out := "#";
    assert path[0..] == path;
    for i := 0 to |path|
      invariant out + Tail(path[i..]) == "#" + Tail(path)
    {
      var before := out;
      out := out + "/";
      out := out + Escape(path[i]);
      assert path[i..][1..] == path[i + 1..];
      assert before + ("/" + Escape(path[i]) + Tail(path[i + 1..])) == out + Tail(path[i + 1..]);
    }
    assert path[|path|..] == [];
  }

  /** The node a path names: a key of an object, or the decimal index of an array item. */
  function NodeAt(v: Value, path: seq<string>): Option<Value> {
    if path == [] then Some(v)
    else if v.Obj? && path[0] in v.fields then NodeAt(v.fields[path[0]], path[1..])
    else if v.Arr? then
      match ParseUsize(path[0])
      case Some(i) => if i < |v.items| && path[0] == Decimal(i) then NodeAt(v.items[i], path[1..]) else None
      case None => None
    else None
  }

  /** One step of either resolver: the token is unescaped, then used as a key or parsed as an index. */
  function Step(v: Value, token: string): Option<Value> {
    var key := Unescape(token);
    match v
    case Obj(fields) => if key in fields then Some(fields[key]) else None
    case Arr(items) =>
      (match ParseUsize(key)
       case Some(i) => if i < |items| then Some(items[i]) else None
       case None => None)
    case _ => None
  }

  function Follow(v: Value, tokens: seq<string>): Option<Value>
    decreases |tokens|
  {
    if tokens == [] then Some(v)
    else
      match Step(v, tokens[0])
      case Some(child) => Follow(child, tokens[1..])
      case None => None
  }

  /** `resolve_json_pointer`, as a function of the pointer text. */
  function ResolveJsonPointer(root: Value, pointer: string): Option<Value> {
    if !StartsWith(pointer, "#/") then None
    else if pointer == "#/" then Some(root)
    else Follow(root, Split(pointer[2..], '/'))
  }

  method ResolvePointer(root: Value, pointer: string) returns (r: Option<Value>)
    ensures r == ResolveJsonPointer(root, pointer)
  {
    if !StartsWith(pointer, "#/") {
      return None;
    }
    var fragment := pointer[2..];
    if fragment == [] {
      assert pointer == "#/";
      return Some(root);
    }
    var tokens := Split(fragment, '/');
    var current := root;
    assert tokens[0..] == tokens;
    for i := 0 to |tokens|
      invariant Follow(current, tokens[i..]) == Follow(root, tokens)
    {
      assert tokens[i..][1..] == tokens[i + 1..];
      var next := Step(current, tokens[i]);
      if next.None? {
        return None;
      }
      current := next.value;
    }
    assert tokens[|tokens|..] == [];
    return Some(current);
  }

  function Escaped(path: seq<string>): seq<string> {
    seq(|path|, i requires 0 <= i < |path| => Escape(path[i]))
  }

  lemma {:induction false} TailIsJoin(path: seq<string>)
    requires path != []
    ensures Tail(path) == "/" + Join(Escaped(path), '/')
  {
    assert Escaped(path)[1..] == Escaped(path[1..]);
    if |path| > 1 {
      TailIsJoin(path[1..]);
    }
  }

  lemma {:induction false} FollowEscaped(v: Value, path: seq<string>)
    requires NodeAt(v, path).Some?
    ensures Follow(v, Escaped(path)) == NodeAt(v, path)
    decreases |path|
  {
    if path != [] {
      UnescapeEscape(path[0]);
      assert Escaped(path)[1..] == Escaped(path[1..]);
      FollowEscaped(Step(v, Escape(path[0])).value, path[1..]);
    }
  }

  lemma TokensOfPointer(path: seq<string>)
    requires path != []
    ensures StartsWith("#" + Tail(path), "#/")
    ensures Split(("#" + Tail(path))[2..], '/') == Escaped(path)
  {
    TailIsJoin(path);
    assert ("#" + Tail(path))[2..] == Join(Escaped(path), '/');
    forall t | t in Escaped(path)
      ensures '/' !in t
    {
      var i :| 0 <= i < |path| && t == Escape(path[i]);
      EscapedHasNoSlash(path[i]);
    }
    SplitJoin(Escaped(path), '/');
  }

  /**
   * The pointer printed for a path that exists leads back to its node, except for the two paths whose
   * pointers the loader reads differently: the empty path prints as `#`, and the single empty key as `#/`.
   */
  lemma PointerRoundTrip(root: Value, path: seq<string>)
    requires NodeAt(root, path).Some?
    ensures ResolveJsonPointer(root, "#" + Tail(path)) == NodeAt(root, path)
            <==> path != [] && path != [""]
  {
    if path != [] {
      TokensOfPointer(path);
      FollowEscaped(root, path);
      if "#" + Tail(path) == "#/" {
        assert Escaped(path) == [""];
        EscapeOfNothing(path[0]);
        assert path == [""];
      }
      if path == [""] {
        assert Escape("") == "";
        assert Tail(path) == "/";
        assert "#" + Tail(path) == "#/";
        ChildDiffers(root, "");
      }
    }
  }

  lemma EscapeOfNothing(seg: string)
    ensures Escape(seg) == "" <==> seg == ""
  {
    if seg != [] {
      EscapeCons(seg);
    }
  }

  lemma ChildDiffers(v: Value, k: string)
    ensures v.Has(k) ==> v.fields[k] != v
    ensures v.Arr? ==> NodeAt(v, [""]) == None
  {
    if v.Has(k) {
      assert v.fields[k] < v;
    }
  }
}
