/** What the walk at the depth limit makes of a schema that lands on a scalar type. */
module TerminalScalars {
  import opened Strings
  import opened Json
  import opened RefResolver
  import opened TerminalWalker

  /** `x` is the number that `n` writes. */
  predicate Denotes(n: Number, x: real) {
    n == Fraction(x) || (n.Whole? && n.i as real == x)
  }

  /** The schema writes `x` under the keyword. */
  predicate Writes(schema: Value, key: string, x: real) {
    schema.Obj? && key in schema.fields && schema.fields[key].Num? && Denotes(schema.fields[key].n, x)
  }

  ghost predicate InRange(schema: Value, x: real) {
    && (forall m | Writes(schema, "minimum", m) :: m <= x)
    && (forall m | Writes(schema, "maximum", m) :: x <= m)
  }

  function Abs(x: real): real {
    if x < 0.0 then -x else x
  }

  /**
   * The number next to zero that the bounds admit. Bounds that cross admit none; a positive minimum goes first then,
   * and a negative maximum next.
   */
  ghost predicate NextToZero(schema: Value, r: real) {
    && (forall x | InRange(schema, x) :: InRange(schema, r) && Abs(r) <= Abs(x))
    && (forall m | Writes(schema, "minimum", m) && 0.0 < m :: r == m)
    && ((forall m | Writes(schema, "minimum", m) :: m <= 0.0) ==>
          forall m | Writes(schema, "maximum", m) && m < 0.0 :: r == m)
    && (r == 0.0 || Writes(schema, "minimum", r) || Writes(schema, "maximum", r))
  }

  /** `i` is a whole number next to `r`, and away from zero when two are equally near. */
  predicate RoundsTo(r: real, i: int) {
    Abs(i as real - r) <= 0.5 && (Abs(i as real - r) == 0.5 ==> Abs(r) < Abs(i as real))
  }

  ghost predicate LandsOn(schema: Value, doc: Document, visited: seq<string>, name: string, landed: Value) {
    && Landing(schema, doc, visited).Some?
    && Landing(schema, doc, visited).value.0 == landed
    && landed.HasStr("type") && landed.fields["type"].s == name
  }

  lemma NumberWritten(schema: Value, key: string)
    requires HasNumber(schema, key)
    ensures forall x :: Writes(schema, key, x) <==> x == AsReal(schema.fields[key].n)
  {
  }

  lemma NearestIsNext(schema: Value)
    ensures NextToZero(schema, Nearest(schema))
  {
    var r := Nearest(schema);
    if HasNumber(schema, "minimum") {
      NumberWritten(schema, "minimum");
      assert Writes(schema, "minimum", AsReal(schema.fields["minimum"].n));
    }
    if HasNumber(schema, "maximum") {
      NumberWritten(schema, "maximum");
      assert Writes(schema, "maximum", AsReal(schema.fields["maximum"].n));
    }
    forall x | InRange(schema, x)
      ensures InRange(schema, r) && Abs(r) <= Abs(x)
    {
    }
  }

  lemma RoundIsNearest(r: real)
    ensures RoundsTo(r, Round(r))
  {
  }

  lemma RoundingIsUnique(r: real, i: int, j: int)
    requires RoundsTo(r, i) && RoundsTo(r, j)
    ensures i == j
  {}

  /** A number schema ends at the admitted number next to zero. */
  lemma NumberIsNextToZero(schema: Value, doc: Document, text: Value -> string, visited: seq<string>, landed: Value)
    requires LandsOn(schema, doc, visited, "number", landed)
    ensures exists r :: Terminal(schema, doc, text, visited) == Num(Fraction(r)) && NextToZero(landed, r)
  {
    TerminalLands(schema, doc, text, visited);
    NearestIsNext(landed);
  }

  /**
   * An integer schema ends at the rounding of that number, and so within its bounds exactly if a rounding of it lies
   * there, as it does when the bounds are whole numbers that do not cross.
   */
  lemma IntegerIsRounded(schema: Value, doc: Document, text: Value -> string, visited: seq<string>, landed: Value)
    requires LandsOn(schema, doc, visited, "integer", landed)
    ensures exists r, i: int ::
              && NextToZero(landed, r) && RoundsTo(r, i)
              && Terminal(schema, doc, text, visited) == Num(Fraction(i as real))
              && (InRange(landed, i as real) <==> exists j: int :: RoundsTo(r, j) && InRange(landed, j as real))
              && (r == r.Floor as real ==> i as real == r)
  {
    TerminalLands(schema, doc, text, visited);
    NearestIsNext(landed);
    var r := Nearest(landed);
    var i := Round(r);
    RoundIsNearest(r);
    forall j: int | RoundsTo(r, j)
      ensures i == j
    {
      RoundingIsUnique(r, i, j);
    }
    if r == r.Floor as real {
      assert RoundsTo(r, r.Floor);
      RoundingIsUnique(r, i, r.Floor);
    }
  }

  /** Whole bounds around some number keep the integer between them. */
  lemma WholeBoundsHold(schema: Value, doc: Document, text: Value -> string, visited: seq<string>, landed: Value,
                        x: real)
    requires LandsOn(schema, doc, visited, "integer", landed)
    requires InRange(landed, x)
    requires forall kw, m | kw in {"minimum", "maximum"} && Writes(landed, kw, m) :: m == m.Floor as real
    ensures exists r ::
              && Terminal(schema, doc, text, visited) == Num(Fraction(r))
              && InRange(landed, r) && forall y | InRange(landed, y) :: Abs(r) <= Abs(y)
  {
    IntegerIsRounded(schema, doc, text, visited, landed);
    var r, i: int :| NextToZero(landed, r) && RoundsTo(r, i)
                     && Terminal(schema, doc, text, visited) == Num(Fraction(i as real))
                     && (r == r.Floor as real ==> i as real == r);
    assert "minimum" in {"minimum", "maximum"} && "maximum" in {"minimum", "maximum"};
    assert r == r.Floor as real;
  }

  /** A bound that is no whole number may be rounded past. */
  lemma RoundedPastTheMinimum(doc: Document, text: Value -> string)
    ensures var schema := Obj(map["type" := Str("integer"), "minimum" := Num(Fraction(2.3))]);
            && Terminal(schema, doc, text, []) == Num(Fraction(2.0))
            && !InRange(schema, 2.0) && InRange(schema, 3.0)
  {
    var schema := Obj(map["type" := Str("integer"), "minimum" := Num(Fraction(2.3))]);
    assert Writes(schema, "minimum", 2.3);
    assert Landing(schema, doc, []) == Some((schema, []));
    IntegerIsRounded(schema, doc, text, [], schema);
    var r, i: int :| NextToZero(schema, r) && RoundsTo(r, i)
                     && Terminal(schema, doc, text, []) == Num(Fraction(i as real));
    assert r == 2.3 && RoundsTo(2.3, 2);
    RoundingIsUnique(2.3, i, 2);
  }

  // ---- where the walk stops ----

  predicate NullBranch(branches: seq<Value>) {
    exists i | 0 <= i < |branches| :: branches[i].Has("type") && branches[i].fields["type"] == Str("null")
  }

  /**
   * A null branch of `oneOf` or `anyOf` ends the walk at null. Else, without `allOf`, a reference met before ends it at
   * null too and one that does not resolve at an empty object; and without a reference the walk has landed.
   */
  lemma WhereItStops(schema: Value, doc: Document, text: Value -> string, visited: seq<string>)
    ensures NullBranch(schema.ArrayAt("oneOf")) || NullBranch(schema.ArrayAt("anyOf")) ==>
              Terminal(schema, doc, text, visited) == Null && Landing(schema, doc, visited) == None
    ensures !NullBranch(schema.ArrayAt("oneOf")) && !NullBranch(schema.ArrayAt("anyOf"))
              && schema.ArrayAt("allOf") == [] ==>
              if schema.HasStr("$ref") then
                var r := schema.fields["$ref"].s;
                && (r in visited ==> Terminal(schema, doc, text, visited) == Null)
                && (r !in visited && Resolve(doc, r).None? ==> Terminal(schema, doc, text, visited) == Obj(map[]))
              else Landing(schema, doc, visited) == Some((schema, visited))
  {
    assert AllowsNull(schema) <==> NullBranch(schema.ArrayAt("oneOf")) || NullBranch(schema.ArrayAt("anyOf")) by {
      if AllowsNull(schema) {
        var kw, i :| kw in {"oneOf", "anyOf"} && 0 <= i < |schema.ArrayAt(kw)| &&
                     schema.ArrayAt(kw)[i].HasStr("type") && schema.ArrayAt(kw)[i].fields["type"].s == "null";
        assert NullBranch(schema.ArrayAt(kw));
      }
      assert "oneOf" in {"oneOf", "anyOf"} && "anyOf" in {"oneOf", "anyOf"};
    }
  }

  /** The wanted length of a string schema; a minimum that is no natural number asks for nothing. */
  predicate Wanted(schema: Value, n: nat) {
    if schema.Has("minLength") && schema.fields["minLength"].Num? && schema.fields["minLength"].n.Whole?
       && 0 <= schema.fields["minLength"].n.i
    then n == schema.fields["minLength"].n.i
    else n == 0
  }

  /** A string schema without a pattern or a format ends at the wanted number of letters, at most 1048576. */
  lemma StringIsLongEnough(schema: Value, doc: Document, text: Value -> string, visited: seq<string>, landed: Value,
                           wanted: nat)
    requires LandsOn(schema, doc, visited, "string", landed)
    requires !landed.Has("pattern") && !landed.Has("format") && Wanted(landed, wanted)
    ensures var v := Terminal(schema, doc, text, visited);
            && v.Str?
            && (wanted <= 1048576 ==> |v.s| == wanted)
            && (1048576 < wanted ==> |v.s| == 1048576)
            && (forall c | c in v.s :: c == 'a')
  {
    TerminalLands(schema, doc, text, visited);
  }

  /** A pattern or a format is left to the string generator; the other types have one value each. */
  lemma OtherTypes(schema: Value, doc: Document, text: Value -> string, visited: seq<string>, name: string,
                   landed: Value)
    requires LandsOn(schema, doc, visited, name, landed)
    ensures var v := Terminal(schema, doc, text, visited);
            && (name == "string" && (landed.Has("pattern") || landed.Has("format")) ==> v == Str(text(landed)))
            && (name == "boolean" ==> v == Bool(false))
            && (name == "array" ==> v == Arr([]))
            && (name !in {"string", "number", "integer", "boolean", "array", "object"} ==> v == Null)
  {
    TerminalLands(schema, doc, text, visited);
  }
}
