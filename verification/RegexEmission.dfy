/** Exactly what the generator emits for the text of a covered expression, said over the tree. */
module RegexEmission {
  import opened Strings
  import opened PatternText
  import opened Regexes
  import opened RegexScan
  import opened RegexSoundness
  import opened Randoms
  import PatternGenerator

  // ---- quantifiers ----

  /** No more than 1024 copies are ever made. */
  function Cap(n: nat): nat {
    if n > 1024 then 1024 else n
  }

  function Least(quant: Quant): nat {
    match quant
    case Once => 1
    case Star => 0
    case Plus => 1
    case Optional => 0
    case Exactly(n) => Cap(n)
    case AtLeast(n) => Cap(n)
    case Between(n, _) => Cap(n)
  }

  function Most(quant: Quant): nat {
    match quant
    case Once => 1
    case Star => 5
    case Plus => 5
    case Optional => 1
    case Exactly(n) => Cap(n)
    case AtLeast(n) => Cap(n + 5)
    case Between(_, m) => Cap(m)
  }

  /** Some count the quantifier asks for is above 1024, five more than the minimum being asked for when it is open. */
  predicate Exceeds(quant: Quant) {
    match quant
    case Exactly(n) => n > 1024
    case AtLeast(n) => n + 5 > 1024
    case Between(n, m) => n > 1024 || m > 1024
    case _ => false
  }

  /** A printed quantifier allows exactly these counts, and is reported exactly when one is above 1024. */
  lemma QuantityOf(quant: Quant, rest: string)
    requires QuantOk(quant) && NoQuantifier(rest)
    ensures Quantifier(PrintQuant(quant) + rest) ==
              Quantity(Least(quant), Most(quant), |PrintQuant(quant)|, Exceeds(quant))
  {
    if Counts(quant) != "" {
      CountedQuantity(quant);
      CountsPlain(quant);
      QuantifierBraces(Counts(quant), rest);
    } else if quant.Once? {
      assert PrintQuant(quant) + rest == rest;
    }
  }

  lemma CountedQuantity(quant: Quant)
    requires QuantOk(quant) && Counts(quant) != ""
    ensures Braces(Counts(quant)) == Quantity(Least(quant), Most(quant), |Counts(quant)| + 2, Exceeds(quant))
  {
    match quant
    case Exactly(n) =>
      NotFound(Decimal(n), ',');
      NumberOfDecimal(n, 1);
    case AtLeast(n) =>
      BracesFrom(n, "");
      assert Counts(quant) == Decimal(n) + "," + "";
    case Between(n, m) =>
      BracesFrom(n, Decimal(m));
      NumberOfDecimal(m, SaturatingAdd(n, 5));
  }

  /**
   * Where braces hold no numeral they stand for one copy; a minimum that is none is one, and a maximum that is none is
   * five more than the minimum.
   */
  lemma BracesDefault(low: string, high: string)
    requires ',' !in low
    ensures ParseUsize(Trim(low)).None? ==> Braces(low) == Quantity(1, 1, |low| + 2, false)
    ensures ParseUsize(Trim(low)).None? && ParseUsize(Trim(high)).None? ==>
              Braces(low + "," + high) == Quantity(1, 6, |low| + |high| + 3, false)
    ensures forall n: nat | n < 1019 && ParseUsize(Trim(low)) == Some(n) && ParseUsize(Trim(high)).None? ::
              Braces(low + "," + high) == Quantity(n, n + 5, |low| + |high| + 3, false)
    ensures forall m: nat | m <= 1024 && ParseUsize(Trim(low)).None? && ParseUsize(Trim(high)) == Some(m) ::
              Braces(low + "," + high) == Quantity(1, if m < 1 then 1 else m, |low| + |high| + 3, false)
  {
    NotFound(low, ',');
    var inner := low + "," + high;
    assert inner[|low|] == ',' && inner[..|low|] == low && inner[|low| + 1..] == high;
    FoundAt(inner, ',', |low|);
  }

  // ---- characters ----

  predicate LetterOrDigit(c: char) {
    'a' <= c <= 'z' || 'A' <= c <= 'Z' || '0' <= c <= '9'
  }

  /** The ASCII punctuation but for the backslash, the grave accent, the tilde and the underscore. */
  predicate Symbol(c: char) {
    && ('!' <= c <= '/' || ':' <= c <= '@' || '[' <= c <= '`' || '{' <= c <= '~')
    && c != '\\' && c != '`' && c != '~' && c != '_'
  }

  predicate EscapeEmits(e: char, c: char) {
    if e == 'd' then '0' <= c <= '9'
    else if e == 'D' || e == 'S' then 'a' <= c <= 'z'
    else if e == 'w' then LetterOrDigit(c) || c == '_'
    else if e == 'W' then Symbol(c)
    else if e == 's' then c == ' '
    else if e == 'n' then c == '\n'
    else if e == 't' then c == '\t'
    else c == e
  }

  /** Inside a class only `\d`, `\w` and `\s` stand for more than their own letter. */
  predicate ItemEmits(item: Item, c: char) {
    match item
    case One(x) => c == x
    case Range(lo, hi) => lo <= c <= hi
    case Escaped(e) =>
      if e == 'd' then '0' <= c <= '9'
      else if e == 'w' then LetterOrDigit(c) || c == '_'
      else if e == 's' then c == ' '
      else c == e
  }

  predicate SomeItemEmits(items: seq<Item>, c: char) {
    exists i | 0 <= i < |items| :: ItemEmits(items[i], c)
  }

  ghost predicate CharEmits(atom: Atom, c: char)
    requires !atom.Group?
  {
    match atom
    case Literal(x) => c == x
    case AnyChar => LetterOrDigit(c)
    case Escape(e) => EscapeEmits(e, c)
    case Class(negated, items) =>
      if negated then LetterOrDigit(c) && !SomeItemEmits(items, c) else SomeItemEmits(items, c)
  }

  lemma {:induction false} ListsWhatItemsEmit(items: seq<Item>, c: char)
    ensures Lists(items, c) <==> SomeItemEmits(items, c)
  {
    if items != [] {
      ListsWhatItemsEmit(items[1..], c);
      assert forall i | 0 < i < |items| :: items[i] == items[1..][i - 1];
      assert forall i | 0 <= i < |items[1..]| :: items[1..][i] == items[i + 1];
      assert c in ItemMembers(items[0]) <==> ItemEmits(items[0], c);
      if Lists(items[1..], c) {
        var i :| 0 <= i < |items[1..]| && ItemEmits(items[1..][i], c);
        assert ItemEmits(items[i + 1], c);
      }
    }
  }

  lemma EscapeExactly(e: char, c: char)
    ensures c in EscapeChars(e) <==> EscapeEmits(e, c)
  {
    if e == 'W' {
      SymbolsExactly(c);
    }
  }

  lemma SymbolsExactly(c: char)
    ensures c in Punctuation() <==> Symbol(c)
  {
  }

  lemma ClassExactly(negated: bool, items: seq<Item>, c: char)
    requires items != [] && ItemsOk(items) && SoundClass(negated, items)
    ensures c in Drawn(ClassText(negated, items)) <==> CharEmits(Class(negated, items), c)
  {
    MembersListed(items, c);
    ListsWhatItemsEmit(items, c);
    if negated {
      var t := ClassText(negated, items);
      assert t[1..] == PrintItems(items);
      var free :| free in Alphanumeric() && !Lists(items, free);
      MembersListed(items, free);
      assert free in ClassChars(t);
    } else {
      PositiveDraws(items);
    }
  }

  lemma ClassRead(negated: bool, items: seq<Item>, tail: string, c: char)
    requires items != [] && ItemsOk(items) && SoundClass(negated, items)
    ensures var p := "[" + ClassText(negated, items) + "]" + tail;
            Slices(p) && (c in AtomChars(p) <==> CharEmits(Class(negated, items), c))
  {
    ClassEndOf(negated, items, tail);
    BracketRead(ClassText(negated, items), tail);
    ClassExactly(negated, items, c);
  }

  lemma BracketRead(text: string, tail: string)
    requires var p := "[" + text + "]" + tail; p[0] == '[' && ClassEnd(p) == |text| + 1
    ensures var p := "[" + text + "]" + tail; Slices(p) && AtomChars(p) == Drawn(text)
  {
    var p := "[" + text + "]" + tail;
    assert p[1..|text| + 1] == text;
  }

  lemma CharExactly(atom: Atom, tail: string, c: char)
    requires AtomOk(atom) && !atom.Group?
    ensures var p := PrintAtom(atom) + tail; Slices(p) && p[0] != '(' && (c in AtomChars(p) <==> CharEmits(atom, c))
  {
    match atom
    case Class(negated, items) => ClassRead(negated, items, tail, c);
    case Escape(e) => EscapeExactly(e, c);
    case _ =>
  }

  // ---- pieces, groups, whole expressions ----

  /** What an atom, a row of pieces, a choice of branches emit, each with whether a quantifier was reported. */
  ghost function AtomEmits(atom: Atom): iset<Draw>
    decreases atom, 0
  {
    if atom.Group? then BranchesEmit(atom.branches) else iset c: char | CharEmits(atom, c) :: Draw([c], false)
  }

  ghost function PiecesEmit(pieces: seq<Piece>): iset<Draw>
    decreases pieces, 0
  {
    if pieces == [] then iset{Draw("", false)}
    else
      var Piece(atom, quant) := pieces[0];
      assert atom < pieces[0];
      Copies(AtomEmits(atom), quant, PiecesEmit(pieces[1..]))
  }

  ghost function BranchesEmit(branches: seq<Branch>): iset<Draw>
    decreases branches, 0
  {
    if branches == [] then iset{} else PiecesEmit(branches[0].pieces) + BranchesEmit(branches[1..])
  }

  /** One unit, copied as often as the quantifier has it, and what follows; reported once reported anywhere. */
  ghost function Copies(units: iset<Draw>, quant: Quant, tails: iset<Draw>): iset<Draw> {
    iset u, n: nat, t | u in units && Least(quant) <= n <= Most(quant) && t in tails ::
      Draw(Repeat(u.text, n) + t.text, u.capped || Exceeds(quant) || t.capped)
  }

  lemma CopiesExactly(units: iset<Draw>, quant: Quant, tails: iset<Draw>, q: Quantity)
    requires q.low == Least(quant) && q.high == Most(quant) && q.capped == Exceeds(quant)
    ensures Followed(units, q, tails) == Copies(units, quant, tails)
  {
  }

  lemma {:induction false} SomeBranchEmits(branches: seq<Branch>, d: Draw) returns (k: nat)
    requires d in BranchesEmit(branches)
    ensures k < |branches| && d in PiecesEmit(branches[k].pieces)
  {
    if d in PiecesEmit(branches[0].pieces) {
      k := 0;
    } else {
      var j := SomeBranchEmits(branches[1..], d);
      assert branches[1..][j] == branches[j + 1];
      k := j + 1;
    }
  }

  lemma {:induction false} BranchEmits(branches: seq<Branch>, k: nat, d: Draw)
    requires k < |branches| && d in PiecesEmit(branches[k].pieces)
    ensures d in BranchesEmit(branches)
  {
    if k > 0 {
      assert branches[1..][k - 1] == branches[k];
      BranchEmits(branches[1..], k - 1, d);
    }
  }

  lemma {:induction false} AtomExactly(atom: Atom, tail: string)
    requires AtomOk(atom)
    ensures Slices(PrintAtom(atom) + tail) && AtomOutputs(PrintAtom(atom) + tail) == AtomEmits(atom)
    decreases atom, 0
  {
    AtomRead(atom, tail);
    var p := PrintAtom(atom) + tail;
    match atom
    case Group(branches) =>
      forall d
        ensures d in AtomOutputs(p) <==> d in AtomEmits(atom)
      {
        GroupExactly(branches, tail, d);
      }
    case _ =>
      forall c
        ensures p[0] != '(' && (c in AtomChars(p) <==> CharEmits(atom, c))
      {
        CharExactly(atom, tail, c);
      }
  }

  lemma {:induction false} GroupExactly(branches: seq<Branch>, tail: string, d: Draw)
    requires branches != [] && BranchesOk(branches) && ReadWhole(branches)
    ensures var p := "(" + PrintBranches(branches) + ")" + tail;
            Slices(p) && (d in AtomOutputs(p) <==> d in BranchesEmit(branches))
    decreases branches, 1
  {
    var p := "(" + PrintBranches(branches) + ")" + tail;
    GroupRead(branches, tail);
    if d in AtomOutputs(p) {
      var k := GroupPick(branches, tail, d);
      BranchExactly(branches, k);
      BranchEmits(branches, k, d);
    }
    if d in BranchesEmit(branches) {
      var k := SomeBranchEmits(branches, d);
      BranchExactly(branches, k);
      assert Texts(branches)[k] == PrintPieces(branches[k].pieces);
      OneAlternative(p, k, d);
    }
  }

  lemma {:induction false} BranchExactly(branches: seq<Branch>, k: nat)
    requires k < |branches| && BranchesOk(branches)
    ensures Outputs(PrintPieces(branches[k].pieces)) == PiecesEmit(branches[k].pieces)
    decreases branches, 0
  {
    BranchAt(branches, k);
    assert branches[k] in branches;
    PiecesExactly(branches[k].pieces, "");
    assert PrintPieces(branches[k].pieces) + "" == PrintPieces(branches[k].pieces);
  }

  lemma {:induction false} PiecesExactly(pieces: seq<Piece>, k: string)
    requires PiecesOk(pieces) && Ends(k)
    ensures Outputs(PrintPieces(pieces) + k) == PiecesEmit(pieces)
    decreases pieces, 0
  {
    if pieces == [] {
      assert PrintPieces(pieces) + k == k;
      EndEmitsNothing(k);
    } else {
      var Piece(atom, quant) := pieces[0];
      assert atom < pieces[0];
      var more := PrintPieces(pieces[1..]) + k;
      PiecesStart(pieces[1..], k);
      AtomExactly(atom, PrintQuant(quant) + more);
      PiecesExactly(pieces[1..], k);
      PieceUnrolled(pieces[0], more);
      PiecesText(pieces, k);
    }
  }

  lemma EndEmitsNothing(k: string)
    requires Ends(k)
    ensures Outputs(k) == iset{Draw("", false)}
  {
    if k == "$" {
      assert k[1..] == "" && Outputs("") == iset{Draw("", false)};
    }
  }

  /** The text of one piece in front of `more`, as the generator goes through it. */
  lemma PieceUnrolled(piece: Piece, more: string)
    requires AtomOk(piece.atom) && QuantOk(piece.quant) && NoQuantifier(more)
    ensures var p := PrintAtom(piece.atom) + (PrintQuant(piece.quant) + more);
            Slices(p) && Outputs(p) == Copies(AtomOutputs(p), piece.quant, Outputs(more))
  {
    var p := PrintAtom(piece.atom) + (PrintQuant(piece.quant) + more);
    PieceRead(piece, more);
    AtomStart(piece.atom);
    QuantityRead(piece, more);
    assert Outputs(p) == Followed(AtomOutputs(p), AtomQuantity(p), Outputs(Rest(p)));
    CopiesExactly(AtomOutputs(p), piece.quant, Outputs(more), AtomQuantity(p));
  }

  lemma QuantityRead(piece: Piece, more: string)
    requires AtomOk(piece.atom) && QuantOk(piece.quant) && NoQuantifier(more)
    ensures AtomQuantity(PrintAtom(piece.atom) + (PrintQuant(piece.quant) + more)) ==
              Quantity(Least(piece.quant), Most(piece.quant), |PrintQuant(piece.quant)|, Exceeds(piece.quant))
  {
    var tail := PrintQuant(piece.quant) + more;
    var p := PrintAtom(piece.atom) + tail;
    AtomRead(piece.atom, tail);
    assert p[AtomWidth(p)..] == tail;
    QuantityOf(piece.quant, more);
  }

  lemma AnchorEmitsNothing(body: string)
    ensures Outputs("^" + body) == Outputs(body)
  {
    assert ("^" + body)[1..] == body;
  }

  /** Of a whole expression the first alternative is emitted, exactly as its tree has it. */
  lemma EmitsExactly(r: Regex)
    requires Covered(r)
    ensures Outputs(Print(r)) == PiecesEmit(r.branches[0].pieces)
  {
    var k := FirstBranch(r);
    var body := PrintPieces(r.branches[0].pieces) + k;
    PiecesExactly(r.branches[0].pieces, k);
    AnchorEmitsNothing(body);
    assert "" + body == body;
  }

  // ---- when a capped quantifier is reported ----

  /** No written count is above 1024. */
  predicate ModestAtom(atom: Atom)
    decreases atom, 0
  {
    atom.Group? ==> ModestBranches(atom.branches)
  }

  predicate ModestPieces(pieces: seq<Piece>)
    decreases pieces, 0
  {
    pieces == [] ||
    var Piece(atom, quant) := pieces[0];
    assert atom < pieces[0];
    ModestAtom(atom) && !Exceeds(quant) && ModestPieces(pieces[1..])
  }

  predicate ModestBranches(branches: seq<Branch>)
    decreases branches, 0
  {
    branches == [] || (ModestPieces(branches[0].pieces) && ModestBranches(branches[1..]))
  }

  /** A count above 1024 stands on the way, whichever branches are taken. */
  predicate ExcessivePieces(pieces: seq<Piece>)
    decreases pieces, 0
  {
    pieces != [] &&
    var Piece(atom, quant) := pieces[0];
    assert atom < pieces[0];
    ExcessiveAtom(atom) || Exceeds(quant) || ExcessivePieces(pieces[1..])
  }

  predicate ExcessiveAtom(atom: Atom)
    decreases atom, 0
  {
    atom.Group? && ExcessiveBranches(atom.branches)
  }

  predicate ExcessiveBranches(branches: seq<Branch>)
    decreases branches, 0
  {
    branches == [] || (ExcessivePieces(branches[0].pieces) && ExcessiveBranches(branches[1..]))
  }

  lemma {:induction false} AtomCapped(atom: Atom, d: Draw)
    requires d in AtomEmits(atom)
    ensures ModestAtom(atom) ==> !d.capped
    ensures ExcessiveAtom(atom) ==> d.capped
    decreases atom, 0
  {
    if atom.Group? {
      BranchesCapped(atom.branches, d);
    }
  }

  lemma {:induction false} BranchesCapped(branches: seq<Branch>, d: Draw)
    requires d in BranchesEmit(branches)
    ensures ModestBranches(branches) ==> !d.capped
    ensures ExcessiveBranches(branches) ==> d.capped
    decreases branches, 0
  {
    if d in PiecesEmit(branches[0].pieces) {
      PiecesCapped(branches[0].pieces, d);
    } else {
      BranchesCapped(branches[1..], d);
    }
  }

  lemma {:induction false} PiecesCapped(pieces: seq<Piece>, d: Draw)
    requires d in PiecesEmit(pieces)
    ensures ModestPieces(pieces) ==> !d.capped
    ensures ExcessivePieces(pieces) ==> d.capped
    decreases pieces, 0
  {
    if pieces != [] {
      var Piece(atom, quant) := pieces[0];
      assert atom < pieces[0];
      var u, n: nat, t :| u in AtomEmits(atom) && Least(quant) <= n <= Most(quant) && t in PiecesEmit(pieces[1..]) &&
        d == Draw(Repeat(u.text, n) + t.text, u.capped || Exceeds(quant) || t.capped);
      AtomCapped(atom, u);
      PiecesCapped(pieces[1..], t);
    }
  }

  /**
   * Nothing is reported for a covered expression whose written counts are at most 1024, whatever is drawn; and whatever
   * is drawn something is, when a count above 1024 stands on the way.
   */
  lemma CappedExactly(r: Regex, d: Draw)
    requires Covered(r) && d in Outputs(Print(r))
    ensures ModestPieces(r.branches[0].pieces) ==> !d.capped
    ensures ExcessivePieces(r.branches[0].pieces) ==> d.capped
  {
    EmitsExactly(r);
    PiecesCapped(r.branches[0].pieces, d);
  }

  /** The generator run on the text of a covered expression. */
  method GenerateFor(r: Regex, rng: Random) returns (s: string, ghost capped: bool)
    requires Covered(r)
    modifies rng
    ensures Draw(s, capped) in PiecesEmit(r.branches[0].pieces)
    ensures ModestPieces(r.branches[0].pieces) ==> s in Language(r) && rng.error == old(rng.error)
    ensures ExcessivePieces(r.branches[0].pieces) ==> rng.error.Some?
  {
    CoveredIsSafe(r);
    s, capped := PatternGenerator.Generate(Print(r), rng);
    EmitsExactly(r);
    CappedExactly(r, Draw(s, capped));
    if !capped {
      GeneratedMatches(r, Draw(s, capped));
    }
  }
}
