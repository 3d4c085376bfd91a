/** Whatever the generator emits for the text of a covered regular expression matches it. */
module RegexSoundness {
  import opened Strings
  import opened PatternText
  import opened Regexes
  import opened RegexScan

  lemma {:induction false} RepeatInPower(a: iset<string>, s: string, n: nat)
    requires s in a
    ensures Repeat(s, n) in Power(a, n)
  {
    if n > 0 {
      RepeatInPower(a, s, n - 1);
    }
  }

  lemma RepeatQuantified(a: iset<string>, quant: Quant, s: string, n: nat)
    requires s in a && Allows(quant, n)
    ensures Repeat(s, n) in Quantified(a, quant)
  {
    RepeatInPower(a, s, n);
  }

  predicate Ends(k: string) {
    k == "" || k[0] == '|' || k == "$"
  }

  lemma AtomStart(atom: Atom)
    requires AtomOk(atom)
    ensures var c := PrintAtom(atom)[0];
      c != '*' && c != '+' && c != '?' && c != '{' && c != '^' && c != '$' && c != '|'
  {}

  /** The printed atom in front of `tail` is read whole. */
  lemma AtomRead(atom: Atom, tail: string)
    requires AtomOk(atom)
    ensures var p := PrintAtom(atom) + tail; Slices(p) && AtomWidth(p) == |PrintAtom(atom)|
  {
    var p := PrintAtom(atom) + tail;
    match atom
    case Group(branches) => GroupEndOf(branches, tail);
    case Class(negated, items) => ClassEndOf(negated, items, tail);
    case _ =>
  }

  lemma PieceRead(piece: Piece, more: string)
    requires AtomOk(piece.atom) && QuantOk(piece.quant) && NoQuantifier(more)
    ensures var p := PrintAtom(piece.atom) + (PrintQuant(piece.quant) + more);
      Slices(p) && Rest(p) == more && ReadsAs(AtomQuantity(p), piece.quant)
  {
    var tail := PrintQuant(piece.quant) + more;
    AtomRead(piece.atom, tail);
    var p := PrintAtom(piece.atom) + tail;
    assert p[AtomWidth(p)..] == tail;
    QuantifierOf(piece.quant, more);
  }

  lemma PiecesStart(pieces: seq<Piece>, k: string)
    requires PiecesOk(pieces) && Ends(k)
    ensures NoQuantifier(PrintPieces(pieces) + k)
  {
    if pieces == [] {
      assert PrintPieces(pieces) + k == k;
    } else {
      AtomStart(pieces[0].atom);
    }
  }

  /** The text of `pieces` as the generator walks it: an atom, a quantifier, and what follows. */
  lemma PiecesText(pieces: seq<Piece>, k: string)
    requires pieces != []
    ensures PrintPieces(pieces) + k ==
            PrintAtom(pieces[0].atom) + (PrintQuant(pieces[0].quant) + (PrintPieces(pieces[1..]) + k))
  {
    FourTexts(PrintAtom(pieces[0].atom), PrintQuant(pieces[0].quant), PrintPieces(pieces[1..]), k);
  }

  lemma FourTexts(a: string, b: string, c: string, d: string)
    ensures a + (b + c) + d == a + (b + (c + d))
  {}

  lemma EscapeSound(e: char, c: char)
    requires EscapeOk(e) && c in EscapeChars(e)
    ensures EscapeAdmits(e, c)
  {
    if e == 'W' {
      PunctuationIsNoWord(c);
    }
  }

  lemma PunctuationIsNoWord(c: char)
    requires c in Punctuation()
    ensures !IsWord(c)
  {}

  lemma CharSound(atom: Atom, tail: string, u: Draw)
    requires AtomOk(atom) && !atom.Group? && Slices(PrintAtom(atom) + tail)
    requires u in AtomOutputs(PrintAtom(atom) + tail)
    ensures u.text in AtomLanguage(atom)
  {
    var p := PrintAtom(atom) + tail;
    var c :| c in AtomChars(p) && u == Draw([c], false);
    assert Admits(atom, c) by {
      match atom
      case Class(negated, items) =>
        ClassEndOf(negated, items, tail);
        assert p[1..ClassEnd(p)] == ClassText(negated, items);
        DrawnAdmitted(negated, items, c);
      case Escape(e) =>
        EscapeSound(e, c);
      case _ =>
    }
  }

  /** The alternatives the generator reads off a printed group are its printed branches. */
  lemma GroupRead(branches: seq<Branch>, tail: string)
    requires branches != [] && ReadWhole(branches)
    ensures var p := "(" + PrintBranches(branches) + ")" + tail;
      GroupEnd(p) > 0 && Alternatives(p[1..GroupEnd(p)], 0) == Texts(branches)
  {
    var p := "(" + PrintBranches(branches) + ")" + tail;
    GroupEndOf(branches, tail);
    assert p[1..GroupEnd(p)] == PrintBranches(branches);
    AlternativesOf(branches);
  }

  lemma GroupPick(branches: seq<Branch>, tail: string, u: Draw) returns (k: nat)
    requires branches != [] && ReadWhole(branches)
    requires var p := "(" + PrintBranches(branches) + ")" + tail; Slices(p) && u in AtomOutputs(p)
    ensures k < |branches| && u in Outputs(PrintPieces(branches[k].pieces))
  {
    var p := "(" + PrintBranches(branches) + ")" + tail;
    k := SomeAlternative(p, u);
    GroupRead(branches, tail);
  }

  lemma {:induction false} AtomSound(atom: Atom, tail: string, u: Draw)
    requires AtomOk(atom) && Slices(PrintAtom(atom) + tail)
    requires u in AtomOutputs(PrintAtom(atom) + tail)
    requires !u.capped || AtomBounded(atom)
    ensures u.text in AtomLanguage(atom)
    decreases atom, 0
  {
    match atom
    case Group(branches) =>
      var k := GroupPick(branches, tail, u);
      BranchAt(branches, k);
      var text := PrintPieces(branches[k].pieces);
      assert text + "" == text;
      assert branches[k] < atom;
      PiecesSound(branches[k].pieces, "", u);
      InBranches(branches, k, u.text);
    case _ =>
      CharSound(atom, tail, u);
  }

  lemma {:induction false} BranchAt(branches: seq<Branch>, k: nat)
    requires k < |branches| && BranchesOk(branches)
    ensures PiecesOk(branches[k].pieces)
    ensures BranchesBounded(branches) ==> PiecesBounded(branches[k].pieces)
  {
    if k > 0 {
      assert branches[1..][k - 1] == branches[k];
      BranchAt(branches[1..], k - 1);
    }
  }

  lemma {:induction false} InBranches(branches: seq<Branch>, k: nat, s: string)
    requires k < |branches| && s in PiecesLanguage(branches[k].pieces)
    ensures s in BranchesLanguage(branches)
  {
    if k > 0 {
      assert branches[1..][k - 1] == branches[k];
      InBranches(branches[1..], k - 1, s);
    }
  }

  /** An outcome is copies of one unit, then an outcome of the rest. */
  lemma SplitDraw(p: string, d: Draw) returns (u: Draw, n: nat, t: Draw)
    requires p != "" && p[0] != '|' && p[0] != '^' && p[0] != '$' && Slices(p) && d in Outputs(p)
    ensures u in AtomOutputs(p) && t in Outputs(Rest(p))
    ensures AtomQuantity(p).low <= n <= AtomQuantity(p).high
    ensures d == Draw(Repeat(u.text, n) + t.text, u.capped || AtomQuantity(p).capped || t.capped)
  {
    var q := AtomQuantity(p);
    u, n, t :| u in AtomOutputs(p) && q.low <= n <= q.high && t in Outputs(Rest(p)) &&
      d == Draw(Repeat(u.text, n) + t.text, u.capped || q.capped || t.capped);
  }

  /** ... and back. */
  lemma JoinDraw(p: string, u: Draw, n: nat, t: Draw)
    requires p != "" && p[0] != '|' && p[0] != '^' && p[0] != '$' && Slices(p)
    requires u in AtomOutputs(p) && t in Outputs(Rest(p))
    requires AtomQuantity(p).low <= n <= AtomQuantity(p).high
    ensures Draw(Repeat(u.text, n) + t.text, u.capped || AtomQuantity(p).capped || t.capped) in Outputs(p)
  {}

  lemma {:induction false} PiecesSound(pieces: seq<Piece>, k: string, d: Draw)
    requires PiecesOk(pieces) && Ends(k)
    requires d in Outputs(PrintPieces(pieces) + k)
    requires !d.capped || PiecesBounded(pieces)
    ensures d.text in PiecesLanguage(pieces)
    decreases pieces, 0
  {
    if pieces == [] {
      assert PrintPieces(pieces) + k == k;
    } else {
      var more := PrintPieces(pieces[1..]) + k;
      var p := PrintPieces(pieces) + k;
      PiecesText(pieces, k);
      PiecesStart(pieces[1..], k);
      PieceRead(pieces[0], more);
      AtomStart(pieces[0].atom);
      var u, n, t := SplitDraw(p, d);
      var Piece(atom, quant) := pieces[0];
      assert atom < pieces[0];
      AtomSound(atom, PrintQuant(quant) + more, u);
      RepeatQuantified(AtomLanguage(atom), quant, u.text, n);
      PiecesSound(pieces[1..], k, t);
    }
  }

  /** The text of a whole expression is that of its first branch and an end. */
  lemma FirstBranch(r: Regex) returns (k: string)
    requires r.branches != []
    ensures Ends(k)
    ensures Print(r) == (if r.starts then "^" else "") + (PrintPieces(r.branches[0].pieces) + k)
    ensures k == MoreBranches(r.branches[1..]) + if r.ends then "$" else ""
  {
    k := MoreBranches(r.branches[1..]) + if r.ends then "$" else "";
    if r.branches[1..] == [] {
      assert k == if r.ends then "$" else "";
    }
  }

  /**
   * Soundness: every string the generator may emit for a covered expression, unless it reports a
   * capped quantifier, is in the language of the expression; and when every written bound is within
   * the cap, every string it may emit.
   */
  lemma GeneratedMatches(r: Regex, d: Draw)
    requires Covered(r) && d in Outputs(Print(r))
    requires !d.capped || BranchesBounded(r.branches)
    ensures d.text in Language(r)
  {
    var k := FirstBranch(r);
    var body := PrintPieces(r.branches[0].pieces) + k;
    if r.starts {
      assert Print(r)[1..] == body;
    } else {
      assert Print(r) == body;
    }
    PiecesSound(r.branches[0].pieces, k, d);
  }

  // ---- the generator never slices out of range on a covered expression ----

  lemma {:induction false} PiecesSafe(pieces: seq<Piece>, k: string)
    requires PiecesOk(pieces) && Ends(k)
    ensures Safe(PrintPieces(pieces) + k)
    decreases pieces, 0
  {
    if pieces == [] {
      assert PrintPieces(pieces) + k == k;
      assert k == "$" ==> k[1..] == "" && Safe("");
    } else {
      var more := PrintPieces(pieces[1..]) + k;
      var p := PrintPieces(pieces) + k;
      PiecesText(pieces, k);
      PiecesStart(pieces[1..], k);
      PieceRead(pieces[0], more);
      AtomStart(pieces[0].atom);
      PiecesSafe(pieces[1..], k);
      var Piece(atom, quant) := pieces[0];
      assert atom < pieces[0];
      if atom.Group? {
        GroupRead(atom.branches, PrintQuant(quant) + more);
        BranchesSafe(atom.branches);
      }
    }
  }

  lemma {:induction false} BranchesSafe(branches: seq<Branch>)
    requires BranchesOk(branches)
    ensures forall k | 0 <= k < |branches| :: Safe(Texts(branches)[k])
    decreases branches, 0
  {
    if branches != [] {
      assert PrintPieces(branches[0].pieces) + "" == PrintPieces(branches[0].pieces);
      PiecesSafe(branches[0].pieces, "");
      BranchesSafe(branches[1..]);
      assert Texts(branches) == [PrintPieces(branches[0].pieces)] + Texts(branches[1..]);
    }
  }

  lemma CoveredIsSafe(r: Regex)
    requires Covered(r)
    ensures Safe(Print(r))
  {
    var k := FirstBranch(r);
    var body := PrintPieces(r.branches[0].pieces) + k;
    PiecesSafe(r.branches[0].pieces, k);
    if r.starts {
      assert Print(r)[1..] == body;
    } else {
      assert Print(r) == body;
    }
  }

  // ---- where the scanners go wrong ----

  predicate Itself(c: char, rest: string) {
    !IsMeta(c) || (c == '\\' && rest == "") || c == ')'
  }

  lemma LiteralRead(c: char, rest: string)
    requires Itself(c, rest) && NoQuantifier(rest)
    ensures var p := [c] + rest;
      p[0] == c && Slices(p) && AtomWidth(p) == 1 && Rest(p) == rest && AtomQuantity(p) == Quantity(1, 1, 0, false)
  {
    assert ([c] + rest)[1..] == rest;
    RestIs([c] + rest, 1, rest);
  }

  lemma LiteralAtom(c: char, rest: string)
    requires Itself(c, rest) && c != '.' && Slices([c] + rest)
    ensures Draw([c], false) in AtomOutputs([c] + rest)
  {
    assert AtomChars([c] + rest) == {c};
  }

  /** A character that stands for itself. */
  lemma Literally(c: char, rest: string, d: Draw)
    requires Itself(c, rest) && NoQuantifier(rest) && d in Outputs(rest)
    ensures Draw([c] + d.text, d.capped) in Outputs([c] + rest)
  {
    LiteralRead(c, rest);
    LiteralAtom(c, rest);
    JoinDraw([c] + rest, Draw([c], false), 1, d);
    assert Repeat([c], 1) == [c] + Repeat([c], 0) == [c];
  }

  lemma OneAlternativeOf(inner: string)
    requires Flat(inner, 0, false) == Some(0)
    ensures Alternatives(inner, 0) == [inner]
  {
    AlternativesSkip(inner, "", 0);
    assert inner + "" == inner;
  }

  /** A group of one alternative, whatever that is to the generator. */
  lemma GroupEmits(inner: string, rest: string, d: Draw, e: Draw)
    requires Flat(inner, 0, false) == Flat(inner, 0, true) == Some(0) && NoQuantifier(rest)
    requires d in Outputs(inner) && e in Outputs(rest)
    ensures Draw(d.text + e.text, d.capped || e.capped) in Outputs("(" + inner + ")" + rest)
  {
    var p := "(" + inner + ")" + rest;
    GroupRest(inner, rest);
    OneAlternativeOf(inner);
    OneAlternative(p, 0, d);
    JoinDraw(p, d, 1, e);
    assert Repeat(d.text, 1) == d.text + Repeat(d.text, 0) == d.text;
  }

  lemma GroupRest(inner: string, rest: string)
    requires Flat(inner, 0, true) == Some(0) && NoQuantifier(rest)
    ensures var p := "(" + inner + ")" + rest;
      && GroupEnd(p) == |inner| + 1 && p[1..GroupEnd(p)] == inner
      && Rest(p) == rest && AtomQuantity(p) == Quantity(1, 1, 0, false)
  {
    var p := "(" + inner + ")" + rest;
    GroupOf(inner, rest);
    GroupSlices(inner, rest);
    RestIs(p, |inner| + 2, rest);
  }

  lemma EmitsBoth(c: char, e: char)
    requires !IsMeta(c) && (e == '\\' || e == ')')
    ensures Draw([c, e], false) in Outputs([c, e])
  {
    Literally(e, "", Draw("", false));
    assert [e] + "" == [e] && [c] + [e] == [c, e];
    Literally(c, [e], Draw([e], false));
  }

  /** Single characters, none repeated, match strings of their own length. */
  lemma {:induction false} SameLength(pieces: seq<Piece>, s: string)
    requires forall p | p in pieces :: !p.atom.Group? && p.quant.Once?
    requires s in PiecesLanguage(pieces)
    ensures |s| == |pieces|
  {
    if pieces != [] {
      var a := AtomLanguage(pieces[0].atom);
      var x, y :| x in Quantified(a, Once) && y in PiecesLanguage(pieces[1..]) && s == x + y;
      assert x in Power(a, 1);
      var u, v :| u in a && v in Power(a, 0) && x == u + v;
      SameLength(pieces[1..], y);
    }
  }

  function EscapeInGroup(a: char, b: char): Regex {
    Regex(false, [Branch([Piece(Group([Branch(Inside(a, b))]), Once)])], false)
  }

  function Inside(a: char, b: char): seq<Piece> {
    [Piece(Literal(a), Once), Piece(Escape(')'), Once), Piece(Literal(b), Once)]
  }

  lemma JustOne(a: iset<string>, x: string)
    requires x in Quantified(a, Once)
    ensures x in a
  {
    assert x in Power(a, 1);
    var u, v :| u in a && v in Power(a, 0) && x == u + v;
    assert x == u;
  }

  lemma JustOnce(atom: Atom, s: string)
    requires s in PiecesLanguage([Piece(atom, Once)])
    ensures s in AtomLanguage(atom)
  {
    var pieces := [Piece(atom, Once)];
    assert pieces[1..] == [];
    var x, y :| x in Quantified(AtomLanguage(pieces[0].atom), Once) && y in PiecesLanguage(pieces[1..]) && s == x + y;
    JustOne(AtomLanguage(atom), x);
    assert s == x;
  }

  lemma JustBranch(branch: Branch)
    ensures BranchesLanguage([branch]) == PiecesLanguage(branch.pieces)
  {
    assert [branch][1..] == [];
  }

  lemma EscapeInGroupLength(a: char, b: char, s: string)
    requires s in Language(EscapeInGroup(a, b))
    ensures |s| == 3
  {
    var group := Group([Branch(Inside(a, b))]);
    JustBranch(Branch([Piece(group, Once)]));
    JustOnce(group, s);
    JustBranch(Branch(Inside(a, b)));
    SameLength(Inside(a, b), s);
  }

  lemma PrintInside(a: char, b: char)
    ensures PrintPieces(Inside(a, b)) == [a, '\\', ')', b]
  {
    var inside := Inside(a, b);
    var second := [Piece(Escape(')'), Once)] + ([Piece(Literal(b), Once)] + []);
    PrintOne(Literal(b), []);
    PrintOne(Escape(')'), [Piece(Literal(b), Once)] + []);
    PrintOne(Literal(a), second);
    assert inside == [Piece(Literal(a), Once)] + second;
  }

  lemma PrintLone(atom: Atom)
    ensures PrintBranches([Branch([Piece(atom, Once)])]) == PrintAtom(atom)
  {
    PrintOne(atom, []);
    assert [Piece(atom, Once)] + [] == [Piece(atom, Once)];
    PrintOneBranch([Piece(atom, Once)]);
  }

  lemma PrintOneBranch(pieces: seq<Piece>)
    ensures PrintBranches([Branch(pieces)]) == PrintPieces(pieces)
  {
    assert [Branch(pieces)][1..] == [];
    assert PrintPieces(pieces) + "" == PrintPieces(pieces);
  }

  lemma PrintPlain(branches: seq<Branch>)
    ensures Print(Regex(false, branches, false)) == PrintBranches(branches)
  {
    assert "" + (PrintBranches(branches) + "") == PrintBranches(branches);
  }

  lemma PrintEscapeInGroup(a: char, b: char)
    ensures Print(EscapeInGroup(a, b)) == "(" + [a, '\\'] + ")" + [b, ')']
    ensures PrintBranches([Branch(Inside(a, b))]) == [a, '\\', ')', b]
  {
    PrintInside(a, b);
    PrintOneBranch(Inside(a, b));
    var group := Group([Branch(Inside(a, b))]);
    PrintLone(group);
    PrintPlain([Branch([Piece(group, Once)])]);
    assert PrintAtom(group) == "(" + [a, '\\', ')', b] + ")";
  }

  lemma PrintOne(atom: Atom, more: seq<Piece>)
    ensures PrintPieces([Piece(atom, Once)] + more) == PrintAtom(atom) + PrintPieces(more)
  {
    var pieces := [Piece(atom, Once)] + more;
    assert pieces[1..] == more && pieces[0] == Piece(atom, Once);
  }

  lemma EmitsEarly(a: char, b: char)
    requires !IsMeta(a) && !IsMeta(b)
    ensures Draw([a, '\\'] + [b, ')'], false) in Outputs("(" + [a, '\\'] + ")" + [b, ')'])
  {
    var inner, rest := [a, '\\'], [b, ')'];
    EmitsBoth(a, '\\');
    EmitsBoth(b, ')');
    FlatPlain(inner, 0, false);
    FlatPlain(inner, 0, true);
    GroupEmits(inner, rest, Draw(inner, false), Draw(rest, false));
  }

  lemma ClosesTooMuch(a: char, b: char)
    requires !IsMeta(a)
    ensures Flat([a, '\\', ')', b], 0, true).None?
  {
    FlatPlain([a, '\\'], 0, true);
    FlatAppend([a, '\\'], [')', b], 0, true);
    assert [a, '\\', ')', b] == [a, '\\'] + [')', b];
  }

  /**
   * An escaped parenthesis that unbalances its group closes it: `(a\)b)` may emit a backslash and four
   * characters, while it matches three.
   */
  lemma EscapedParenthesis(a: char, b: char)
    requires !IsMeta(a) && !IsMeta(b)
    ensures !ReadWhole([Branch(Inside(a, b))])
    ensures Draw([a, '\\', b, ')'], false) in Outputs(Print(EscapeInGroup(a, b)))
    ensures [a, '\\', b, ')'] !in Language(EscapeInGroup(a, b))
  {
    var inner, rest := [a, '\\'], [b, ')'];
    EmitsEarly(a, b);
    PrintEscapeInGroup(a, b);
    ClosesTooMuch(a, b);
    assert inner + rest == [a, '\\', b, ')'];
    if [a, '\\', b, ')'] in Language(EscapeInGroup(a, b)) {
      EscapeInGroupLength(a, b, [a, '\\', b, ')']);
    }
  }
}
