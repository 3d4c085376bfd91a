/** The parts of a segment template, told from its text alone. */
module TemplateReading {
  import opened Strings
  import opened Templates

  /** A brace opens a literal or none of it, and is never closed in what follows; no text is parted without one. */
  predicate LiteralOk(text: string, rest: seq<Part>) {
    && text != "" && '{' !in text[1..]
    && (text[0] == '{' ==> '}' !in text + Print(rest))
    && (rest != [] && rest[0].Literal? ==> rest[0].text != "" && rest[0].text[0] == '{')
  }

  /** Every closed brace is a parameter up to the first brace that closes it, and all other text is literal. */
  predicate WellRead(parts: seq<Part>) {
    parts == [] ||
    (&& (match parts[0]
         case Literal(text) => LiteralOk(text, parts[1..])
         case Param(name) => '}' !in name)
     && WellRead(parts[1..]))
  }

  // ---- splitting reads well ----

  /** Text read so far: without a brace, or opened by one that nothing closes. */
  predicate Pending(buf: string, t: string) {
    buf != "" ==> '{' !in buf[1..] && (buf[0] == '{' ==> '}' !in buf + t)
  }

  lemma {:induction false} StartsPending(t: string, buf: string)
    requires buf != ""
    ensures var parts := Parts(t, buf);
            parts != [] && parts[0].Literal? && parts[0].text != "" && parts[0].text[0] == buf[0]
    decreases |t|
  {
    if t != "" && t[0] != '{' {
      StartsPending(t[1..], buf + [t[0]]);
    }
  }

  lemma {:induction false} PartsReadWell(t: string, buf: string)
    requires Pending(buf, t)
    ensures WellRead(Parts(t, buf))
    decreases |t|
  {
    if t == "" {
      LastLiteral(buf);
    } else if t[0] == '{' {
      match BraceEnd(t)
      case Some(j) =>
        PartsReadWell(t[j + 1..], "");
        PrintParts(t[j + 1..], "");
        BracedText(t, j, Parts(t[j + 1..], ""));
        ParamReadWell(t, t[1..j], Parts(t[j + 1..], ""), buf);
      case None =>
        assert "{" + t[1..] == t && '}' !in t;
        PartsReadWell(t[1..], "{");
        StartsPending(t[1..], "{");
        PrintParts(t[1..], "{");
        FlushReadsWell(buf, Parts(t[1..], "{"), t);
    } else {
      assert buf + [t[0]] + t[1..] == buf + t;
      assert buf != "" ==> (buf + [t[0]])[1..] == buf[1..] + [t[0]];
      PartsReadWell(t[1..], buf + [t[0]]);
    }
  }

  lemma LastLiteral(buf: string)
    requires Pending(buf, "")
    ensures WellRead(Flush(buf))
  {
    if buf != "" {
      assert [Literal(buf)][1..] == [] && buf + "" == buf;
      assert LiteralOk(buf, []);
    }
  }

  lemma FlushReadsWell(buf: string, rest: seq<Part>, t: string)
    requires Pending(buf, t) && WellRead(rest) && Print(rest) == t
    requires rest != [] && (rest[0].Literal? ==> rest[0].text != "" && rest[0].text[0] == '{')
    ensures WellRead(Flush(buf) + rest)
  {
    if buf == "" {
      assert Flush(buf) + rest == rest;
    } else {
      var parts := Flush(buf) + rest;
      assert parts[0] == Literal(buf) && parts[1..] == rest;
      assert LiteralOk(buf, rest);
    }
  }

  lemma BracedText(t: string, j: nat, rest: seq<Part>)
    requires 1 <= j < |t| && t[0] == '{' && t[j] == '}' && Print(rest) == "" + t[j + 1..]
    ensures t == "{" + t[1..j] + "}" + Print(rest)
  {
  }

  lemma ParamReadWell(t: string, name: string, rest: seq<Part>, buf: string)
    requires Pending(buf, t) && '}' !in name && WellRead(rest) && t == "{" + name + "}" + Print(rest)
    ensures WellRead(Flush(buf) + [Param(name)] + rest)
  {
    ParamFirst(name, rest);
    FlushReadsWell(buf, [Param(name)] + rest, t);
    assert Flush(buf) + ([Param(name)] + rest) == Flush(buf) + [Param(name)] + rest;
  }

  lemma ParamFirst(name: string, rest: seq<Part>)
    requires '}' !in name && WellRead(rest)
    ensures var parts := [Param(name)] + rest;
            parts[0] == Param(name) && WellRead(parts) && Print(parts) == "{" + name + "}" + Print(rest)
  {
    var parts := [Param(name)] + rest;
    assert parts[0] == Param(name) && parts[1..] == rest;
  }

  // ---- there is one way to read a template ----

  lemma PrintFirst(parts: seq<Part>)
    requires parts != [] && WellRead(parts)
    ensures Print(parts) != "" && Print(parts) == PrintPart(parts[0]) + Print(parts[1..])
    ensures parts[0].Param? ==> Print(parts)[0] == '{' && '}' in Print(parts)
    ensures parts[0].Literal? ==> Print(parts)[0] == parts[0].text[0]
  {
    if parts[0].Param? {
      var name := parts[0].name;
      assert ("{" + name + "}")[|name| + 1] == '}';
      assert Print(parts)[|name| + 1] == '}';
    }
  }

  lemma SameParam(a: string, x: string, b: string, y: string)
    requires '}' !in a && '}' !in b && "{" + a + "}" + x == "{" + b + "}" + y
    ensures a == b && x == y
  {
    var s := "{" + a + "}" + x;
    assert s[|a| + 1] == '}' && s[|b| + 1] == '}';
    assert forall i | 0 <= i < |a| :: s[i + 1] == a[i];
    assert forall i | 0 <= i < |b| :: s[i + 1] == b[i];
    assert |a| == |b|;
    assert a == s[1..|a| + 1] && b == s[1..|a| + 1];
    assert x == s[|a| + 2..] && y == s[|a| + 2..];
  }

  lemma NoLonger(text: string, rest: seq<Part>, other: string, more: seq<Part>)
    requires LiteralOk(text, rest) && WellRead(rest) && LiteralOk(other, more)
    requires text + Print(rest) == other + Print(more)
    ensures |text| >= |other|
  {
    if rest != [] {
      PrintFirst(rest);
      assert (text + Print(rest))[|text|] == Print(rest)[0];
    }
  }

  lemma {:induction false} OneReading(a: seq<Part>, b: seq<Part>)
    requires WellRead(a) && WellRead(b) && Print(a) == Print(b)
    ensures a == b
    decreases |a|
  {
    if a != [] {
      PrintFirst(a);
    }
    if b != [] {
      PrintFirst(b);
    }
    if a != [] && b != [] {
      if a[0].Param? && b[0].Param? {
        SameParam(a[0].name, Print(a[1..]), b[0].name, Print(b[1..]));
      } else if a[0].Literal? && b[0].Literal? {
        NoLonger(a[0].text, a[1..], b[0].text, b[1..]);
        NoLonger(b[0].text, b[1..], a[0].text, a[1..]);
        var s := Print(a);
        assert a[0].text == s[..|a[0].text|] && b[0].text == s[..|a[0].text|];
        assert Print(a[1..]) == s[|a[0].text|..] && Print(b[1..]) == s[|a[0].text|..];
      }
      OneReading(a[1..], b[1..]);
      assert a == [a[0]] + a[1..] && b == [b[0]] + b[1..];
    }
  }

  /** A template is split into the only parts that print it and are well read. */
  lemma PartsAreExact(template: string, parts: seq<Part>)
    ensures parts == Parts(template, "") <==> WellRead(parts) && Print(parts) == template
  {
    PartsReadWell(template, "");
    PrintParts(template, "");
    if WellRead(parts) && Print(parts) == template {
      OneReading(parts, Parts(template, ""));
    }
  }
}
