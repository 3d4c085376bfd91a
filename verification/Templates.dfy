/** Path-segment templates such as `users-{id}-v{version}`: splitting them, and matching a segment against one. */
module Templates {
  import opened Strings

  datatype Part = Literal(text: string) | Param(name: string)

  datatype Binding = Binding(name: string, value: string)

  // ---- splitting ----

  function Flush(buf: string): seq<Part> {
    if buf == "" then [] else [Literal(buf)]
  }

  /** Where the brace that opens `t` is closed. */
  function BraceEnd(t: string): (r: Option<nat>)
    requires t != ""
    ensures r.Some? ==> 1 <= r.value < |t| && t[r.value] == '}' && '}' !in t[1..r.value]
    ensures r.None? ==> '}' !in t[1..]
  {
    var k := IndexOfChar(t[1..], '}');
    if k.Some? then
      assert t[1..][..k.value] == t[1..k.value + 1];
      Some(k.value + 1)
    else None
  }

  lemma BraceEndIs(t: string, j: nat)
    requires t != "" && 1 <= j <= |t| && '}' !in t[1..j] && (j < |t| ==> t[j] == '}')
    ensures BraceEnd(t) == if j < |t| then Some(j) else None
  {
  }

  /** The parts of `t`, with the literal text `buf` already read. An opening brace that is never closed is literal. */
  function Parts(t: string, buf: string): seq<Part>
    decreases |t|
  {
    if t == "" then Flush(buf)
    else if t[0] == '{' then
      match BraceEnd(t)
      case Some(j) => Flush(buf) + [Param(t[1..j])] + Parts(t[j + 1..], "")
      case None => Flush(buf) + Parts(t[1..], "{")
    else Parts(t[1..], buf + [t[0]])
  }

  lemma AtBrace(template: string, i: nat, j: nat, buf: string)
    requires i < j <= |template| && template[i] == '{' && '}' !in template[i + 1..j]
              && (j < |template| ==> template[j] == '}')
    ensures Parts(template[i..], buf) ==
            if j < |template| then Flush(buf) + [Param(template[i + 1..j])] + Parts(template[j + 1..], "")
            else Flush(buf) + Parts(template[i + 1..], "" + "{")
  {
    var rest := template[i..];
    assert rest[1..j - i] == template[i + 1..j];
    BraceEndIs(rest, j - i);
    assert rest[1..] == template[i + 1..];
    assert "" + "{" == "{";
    if j < |template| {
      assert rest[j - i + 1..] == template[j + 1..];
    }
  }

  lemma NothingFlushed(p: Part, rest: seq<Part>)
    ensures Flush("") + [p] + rest == [p] + rest
  {}

  lemma OpensWith(t: string, j: nat)
    requires 1 <= j < |t| && t[0] == '{' && t[j] == '}' && '}' !in t[1..j]
    ensures Parts(t, "") == [Param(t[1..j])] + Parts(t[j + 1..], "")
  {
    BraceEndIs(t, j);
    NothingFlushed(Param(t[1..j]), Parts(t[j + 1..], ""));
  }

  /** What the loop has split off, and what is still to come, together make the whole. */
  ghost predicate Splitting(template: string, parts: seq<Part>, i: nat, buf: string) {
    i <= |template| && Parts(template, "") == parts + Parts(template[i..], buf)
  }

  lemma PlainStep(template: string, parts: seq<Part>, i: nat, buf: string)
    requires i < |template| && template[i] != '{' && Splitting(template, parts, i, buf)
    ensures Splitting(template, parts, i + 1, buf + [template[i]])
  {
    assert template[i..][1..] == template[i + 1..];
  }

  lemma BraceStep(template: string, parts: seq<Part>, i: nat, j: nat, buf: string)
    requires i < j <= |template| && template[i] == '{' && '}' !in template[i + 1..j]
              && (j < |template| ==> template[j] == '}')
    requires Splitting(template, parts, i, buf)
    ensures j < |template| ==> Splitting(template, parts + Flush(buf) + [Param(template[i + 1..j])], j + 1, "")
    ensures j == |template| ==> Splitting(template, parts + Flush(buf), i + 1, "" + "{")
  {
    AtBrace(template, i, j, buf);
    if j < |template| {
      var rest := Parts(template[j + 1..], "");
      assert parts + (Flush(buf) + [Param(template[i + 1..j])] + rest) ==
             parts + Flush(buf) + [Param(template[i + 1..j])] + rest;
    } else {
      var rest := Parts(template[i + 1..], "" + "{");
      assert parts + (Flush(buf) + rest) == parts + Flush(buf) + rest;
    }
  }

  method SplitTemplateParts(template: string) returns (parts: seq<Part>)
    ensures parts == Parts(template, "")
  {
    parts := [];
    var buf := "";
    var i := 0;
    assert template[0..] == template;
    while i < |template|
      invariant 0 <= i <= |template| && Splitting(template, parts, i, buf)
    {
      if template[i] == '{' {
        var j := FindBrace(template, i + 1);
        BraceStep(template, parts, i, j, buf);
        parts := FlushInto(parts, buf);
        buf := "";
        if j < |template| {
          parts := parts + [Param(template[i + 1..j])];
          i := j + 1;
        } else {
          buf := buf + "{";
          i := i + 1;
        }
      } else {
        PlainStep(template, parts, i, buf);
        buf := buf + [template[i]];
        i := i + 1;
      }
    }
    parts := FlushInto(parts, buf);
  }

  method FlushInto(parts: seq<Part>, buf: string) returns (r: seq<Part>)
    ensures r == parts + Flush(buf)
  {
    r := parts;
    if buf != "" {
      r := r + [Literal(buf)];
    }
  }

  method FindBrace(template: string, start: nat) returns (j: nat)
    requires start <= |template|
    ensures start <= j <= |template| && '}' !in template[start..j]
    ensures j < |template| ==> template[j] == '}'
  {
    j := start;
    while j < |template| && template[j] != '}'
      invariant start <= j <= |template| && '}' !in template[start..j]
    {
      assert template[start..j + 1] == template[start..j] + [template[j]];
      j := j + 1;
    }
  }

  function PrintPart(p: Part): string {
    match p
    case Literal(text) => text
    case Param(name) => "{" + name + "}"
  }

  function Print(parts: seq<Part>): string {
    if parts == [] then "" else PrintPart(parts[0]) + Print(parts[1..])
  }

  lemma {:induction false} PrintJoins(a: seq<Part>, b: seq<Part>)
    ensures Print(a + b) == Print(a) + Print(b)
  {
    if a == [] {
      assert a + b == b;
    } else {
      assert (a + b)[1..] == a[1..] + b;
      PrintJoins(a[1..], b);
    }
  }

  lemma PrintFlush(buf: string)
    ensures Print(Flush(buf)) == buf
  {
    if buf != "" {
      assert Print([Literal(buf)]) == buf + Print([]);
    }
  }

  /** Printing the parts gives the template back. */
  lemma {:induction false} PrintParts(t: string, buf: string)
    ensures Print(Parts(t, buf)) == buf + t
    decreases |t|
  {
    PrintFlush(buf);
    if t == "" {
    } else if t[0] == '{' {
      PrintBrace(t, buf);
    } else {
      PrintParts(t[1..], buf + [t[0]]);
      assert buf + [t[0]] + t[1..] == buf + t;
    }
  }

  lemma {:induction false} PrintBrace(t: string, buf: string)
    requires t != "" && t[0] == '{'
    ensures Print(Parts(t, buf)) == buf + t
    decreases |t|, 0
  {
    match BraceEnd(t)
    case Some(j) =>
      PrintParts(t[j + 1..], "");
      PrintClosed(t, j, buf, Parts(t[j + 1..], ""));
    case None =>
      PrintParts(t[1..], "{");
      PrintOpen(t, buf, Parts(t[1..], "{"));
  }

  lemma PrintClosed(t: string, j: nat, buf: string, rest: seq<Part>)
    requires 1 <= j < |t| && t[0] == '{' && t[j] == '}' && Print(rest) == "" + t[j + 1..]
    ensures Print(Flush(buf) + [Param(t[1..j])] + rest) == buf + t
  {
    PrintFlush(buf);
    PrintParam(Flush(buf), t[1..j], rest);
    BracePieces(t, j, buf);
  }

  lemma PrintOpen(t: string, buf: string, rest: seq<Part>)
    requires t != "" && t[0] == '{' && Print(rest) == "{" + t[1..]
    ensures Print(Flush(buf) + rest) == buf + t
  {
    PrintFlush(buf);
    PrintJoins(Flush(buf), rest);
    assert "{" + t[1..] == t;
  }

  lemma BracePieces(t: string, j: nat, buf: string)
    requires 1 <= j < |t| && t[0] == '{' && t[j] == '}'
    ensures buf + ("{" + t[1..j] + "}" + ("" + t[j + 1..])) == buf + t
  {
    assert "{" + t[1..j] + "}" + ("" + t[j + 1..]) == t;
  }

  lemma PrintParam(before: seq<Part>, name: string, after: seq<Part>)
    ensures Print(before + [Param(name)] + after) == Print(before) + ("{" + name + "}" + Print(after))
  {
    PrintJoins(before + [Param(name)], after);
    PrintJoins(before, [Param(name)]);
    PrintOne(Param(name));
    ThreeTexts(Print(before), "{" + name + "}", Print(after));
  }

  lemma PrintOne(p: Part)
    ensures Print([p]) == PrintPart(p)
  {
    assert [p][1..] == [];
    assert PrintPart(p) + "" == PrintPart(p);
  }

  lemma ThreeTexts(a: string, b: string, c: string)
    ensures a + b + c == a + (b + c)
  {}

  /** Literals are not empty, and no name holds a closing brace. */
  predicate WellFormed(parts: seq<Part>) {
    forall i | 0 <= i < |parts| :: if parts[i].Literal? then parts[i].text != "" else '}' !in parts[i].name
  }

  lemma {:induction false} PartsWellFormed(t: string, buf: string)
    ensures WellFormed(Parts(t, buf))
    decreases |t|
  {
    if t == "" {
    } else if t[0] == '{' {
      match BraceEnd(t)
      case Some(j) => PartsWellFormed(t[j + 1..], "");
      case None => PartsWellFormed(t[1..], "{");
    } else {
      PartsWellFormed(t[1..], buf + [t[0]]);
    }
  }
}
