/** Regular expressions as trees: their text, and the strings they match. */
module Regexes {
  import opened Strings
  import opened PatternText

  datatype Regex = Regex(starts: bool, branches: seq<Branch>, ends: bool)

  datatype Branch = Branch(pieces: seq<Piece>)

  datatype Piece = Piece(atom: Atom, quant: Quant)

  datatype Atom =
    | Literal(c: char)
    | AnyChar
    | Escape(e: char)
    | Class(negated: bool, items: seq<Item>)
    | Group(branches: seq<Branch>)

  datatype Item = One(c: char) | Range(lo: char, hi: char) | Escaped(e: char)

  datatype Quant = Once | Star | Plus | Optional | Exactly(n: nat) | AtLeast(n: nat) | Between(n: nat, m: nat)

  // ---- text ----

  function PrintItem(item: Item): (s: string)
    ensures s != ""
  {
    match item
    case One(c) => [c]
    case Range(lo, hi) => [lo, '-', hi]
    case Escaped(e) => ['\\', e]
  }

  function PrintItems(items: seq<Item>): string {
    if items == [] then "" else PrintItem(items[0]) + PrintItems(items[1..])
  }

  /** What a counted quantifier has between its braces. */
  function Counts(quant: Quant): string {
    match quant
    case Exactly(n) => Decimal(n)
    case AtLeast(n) => Decimal(n) + ","
    case Between(n, m) => Decimal(n) + "," + Decimal(m)
    case _ => ""
  }

  function PrintQuant(quant: Quant): string {
    match quant
    case Once => ""
    case Star => "*"
    case Plus => "+"
    case Optional => "?"
    case _ => "{" + Counts(quant) + "}"
  }

  function ClassText(negated: bool, items: seq<Item>): string {
    (if negated then "^" else "") + PrintItems(items)
  }

  function PrintAtom(atom: Atom): (s: string)
    ensures s != ""
    decreases atom, 0
  {
    match atom
    case Literal(c) => [c]
    case AnyChar => "."
    case Escape(e) => ['\\', e]
    case Class(negated, items) => "[" + ClassText(negated, items) + "]"
    case Group(branches) => "(" + PrintBranches(branches) + ")"
  }

  function PrintPieces(pieces: seq<Piece>): string
    decreases pieces, 0
  {
    if pieces == [] then ""
    else
      var Piece(atom, quant) := pieces[0];
      assert atom < pieces[0];
      PrintAtom(atom) + (PrintQuant(quant) + PrintPieces(pieces[1..]))
  }

  function PrintBranches(branches: seq<Branch>): string
    decreases branches, 0
  {
    if branches == [] then ""
    else PrintPieces(branches[0].pieces) + MoreBranches(branches[1..])
  }

  function MoreBranches(branches: seq<Branch>): string
    decreases branches, 1
  {
    if branches == [] then "" else "|" + PrintBranches(branches)
  }

  function Print(r: Regex): string {
    (if r.starts then "^" else "") + (PrintBranches(r.branches) + if r.ends then "$" else "")
  }

  // ---- meaning ----

  predicate IsWord(c: char) {
    'a' <= c <= 'z' || 'A' <= c <= 'Z' || '0' <= c <= '9' || c == '_'
  }

  predicate EscapeAdmits(e: char, c: char) {
    if e == 'd' then IsDigit(c)
    else if e == 'D' then !IsDigit(c)
    else if e == 'w' then IsWord(c)
    else if e == 'W' then !IsWord(c)
    else if e == 's' then IsSpace(c)
    else if e == 'S' then !IsSpace(c)
    else if e == 'n' then c == '\n'
    else if e == 't' then c == '\t'
    else c == e
  }

  predicate ItemAdmits(item: Item, c: char) {
    match item
    case One(x) => c == x
    case Range(lo, hi) => lo <= c <= hi
    case Escaped(e) => EscapeAdmits(e, c)
  }

  predicate ItemsAdmit(items: seq<Item>, c: char) {
    items != [] && (ItemAdmits(items[0], c) || ItemsAdmit(items[1..], c))
  }

  /** The characters a one-character atom matches. */
  predicate Admits(atom: Atom, c: char)
    requires !atom.Group?
  {
    match atom
    case Literal(x) => c == x
    case AnyChar => c != '\n'
    case Escape(e) => EscapeAdmits(e, c)
    case Class(negated, items) => negated != ItemsAdmit(items, c)
  }

  predicate Allows(quant: Quant, n: nat) {
    match quant
    case Once => n == 1
    case Star => true
    case Plus => n >= 1
    case Optional => n <= 1
    case Exactly(k) => n == k
    case AtLeast(k) => n >= k
    case Between(k, m) => k <= n <= m
  }

  ghost function Concat(a: iset<string>, b: iset<string>): iset<string> {
    iset x, y | x in a && y in b :: x + y
  }

  ghost function Power(a: iset<string>, n: nat): iset<string> {
    if n == 0 then iset{""} else Concat(a, Power(a, n - 1))
  }

  ghost function Quantified(a: iset<string>, quant: Quant): iset<string> {
    iset n: nat, s | Allows(quant, n) && s in Power(a, n) :: s
  }

  ghost function AtomLanguage(atom: Atom): iset<string>
    decreases atom, 0
  {
    if atom.Group? then BranchesLanguage(atom.branches) else iset c: char | Admits(atom, c) :: [c]
  }

  ghost function PiecesLanguage(pieces: seq<Piece>): iset<string>
    decreases pieces, 0
  {
    if pieces == [] then iset{""}
    else
      var Piece(atom, quant) := pieces[0];
      assert atom < pieces[0];
      Concat(Quantified(AtomLanguage(atom), quant), PiecesLanguage(pieces[1..]))
  }

  ghost function BranchesLanguage(branches: seq<Branch>): iset<string>
    decreases branches, 0
  {
    if branches == [] then iset{} else PiecesLanguage(branches[0].pieces) + BranchesLanguage(branches[1..])
  }

  /** The strings that match from end to end. */
  ghost function Language(r: Regex): iset<string> {
    BranchesLanguage(r.branches)
  }

  // ---- which trees the generator's dialect covers ----

  predicate IsMeta(c: char) {
    c == '\\' || c == '^' || c == '$' || c == '.' || c == '|' || c == '?' || c == '*' || c == '+' ||
    c == '(' || c == ')' || c == '[' || c == '{'
  }

  predicate Structural(c: char) {
    c == '(' || c == ')' || c == '|'
  }

  /** The characters a backslash makes literal. */
  predicate IsPunctuation(c: char) {
    ('!' <= c <= '/' || ':' <= c <= '@' || '[' <= c <= '`' || '{' <= c <= '~') && c != '<' && c != '>'
  }

  predicate EscapeOk(e: char) {
    e == 'd' || e == 'D' || e == 'w' || e == 'W' || e == 's' || e == 'S' || e == 'n' || e == 't' || IsPunctuation(e)
  }

  predicate ClassCharOk(c: char) {
    c != '\\' && c != ']' && c != '[' && c != '^' && c != '-' && c != '&' && c != '~'
  }

  predicate ItemOk(item: Item, last: bool) {
    match item
    case One(c) => ClassCharOk(c) || (last && c == '-')
    case Range(lo, hi) => lo <= hi && ClassCharOk(lo) && ClassCharOk(hi)
    case Escaped(e) => EscapeOk(e) && e != ']' && (e == '-' ==> last)
  }

  predicate ItemsOk(items: seq<Item>) {
    items == [] || (ItemOk(items[0], |items| == 1) && ItemsOk(items[1..]))
  }

  /** What the generator takes an item to list: an escape it has no case for lists its own letter. */
  function ItemMembers(item: Item): set<char> {
    match item
    case One(c) => {c}
    case Range(lo, hi) => Span(lo, hi)
    case Escaped(e) => EscapeMembers(e)
  }

  predicate Lists(items: seq<Item>, c: char) {
    items != [] && (c in ItemMembers(items[0]) || Lists(items[1..], c))
  }

  /** The escapes whose own letter they do not admit. */
  const MISREAD: set<char> := {'W', 'n', 't'}

  /**
   * The classes that are drawn from soundly. Of a misread escape the letter is drawn, so another item has to admit it.
   * A negated class has to leave a letter or a digit, and none that `\S` or `\D` admits.
   */
  ghost predicate SoundClass(negated: bool, items: seq<Item>) {
    if negated then
      && (exists c :: c in Alphanumeric() && !Lists(items, c))
      && Escaped('S') !in items
      && (Escaped('D') in items ==> forall c | c in Alphanumeric() && !IsDigit(c) :: Lists(items, c))
    else forall e | e in MISREAD && Escaped(e) in items :: ItemsAdmit(items, e)
  }

  /**
   * The parenthesis depth after `t`, from depth `d`; none when `t` closes more than `d`
   * parentheses, or has a pipe at depth zero where none is allowed.
   */
  function Flat(t: string, d: nat, pipes: bool): Option<nat> {
    if t == "" then Some(d)
    else if t[0] == '(' then Flat(t[1..], d + 1, pipes)
    else if t[0] == ')' then if d == 0 then None else Flat(t[1..], d - 1, pipes)
    else if t[0] == '|' && d == 0 && !pipes then None
    else Flat(t[1..], d, pipes)
  }

  /**
   * The groups whose text, escapes and classes included, has balanced parentheses and no pipes between its branches
   * but those that separate them.
   */
  predicate ReadWhole(branches: seq<Branch>) {
    && Flat(PrintBranches(branches), 0, true) == Some(0)
    && forall k | 0 <= k < |branches| :: Flat(PrintPieces(branches[k].pieces), 0, false) == Some(0)
  }

  predicate QuantOk(quant: Quant) {
    match quant
    case Exactly(n) => n <= USIZE_MAX
    case AtLeast(n) => n <= USIZE_MAX
    case Between(n, m) => n <= m <= USIZE_MAX
    case _ => true
  }

  ghost predicate AtomOk(atom: Atom)
    decreases atom, 0
  {
    match atom
    case Literal(c) => !IsMeta(c)
    case AnyChar => true
    case Escape(e) => EscapeOk(e)
    case Class(negated, items) => items != [] && ItemsOk(items) && SoundClass(negated, items)
    case Group(branches) => branches != [] && BranchesOk(branches) && ReadWhole(branches)
  }

  ghost predicate PiecesOk(pieces: seq<Piece>)
    decreases pieces, 0
  {
    pieces == [] ||
    var Piece(atom, quant) := pieces[0];
    assert atom < pieces[0];
    AtomOk(atom) && QuantOk(quant) && PiecesOk(pieces[1..])
  }

  ghost predicate BranchesOk(branches: seq<Branch>)
    decreases branches, 0
  {
    branches == [] || (PiecesOk(branches[0].pieces) && BranchesOk(branches[1..]))
  }

  ghost predicate Covered(r: Regex) {
    r.branches != [] && BranchesOk(r.branches)
  }

  // ---- bounds the generator does not cap ----

  predicate QuantBounded(quant: Quant) {
    match quant
    case Exactly(n) => n <= MAX_REGEX_REPEAT
    case AtLeast(n) => n <= MAX_REGEX_REPEAT
    case Between(n, m) => m <= MAX_REGEX_REPEAT
    case _ => true
  }

  predicate AtomBounded(atom: Atom)
    decreases atom, 0
  {
    atom.Group? ==> BranchesBounded(atom.branches)
  }

  predicate PiecesBounded(pieces: seq<Piece>)
    decreases pieces, 0
  {
    pieces == [] ||
    var Piece(atom, quant) := pieces[0];
    assert atom < pieces[0];
    AtomBounded(atom) && QuantBounded(quant) && PiecesBounded(pieces[1..])
  }

  predicate BranchesBounded(branches: seq<Branch>)
    decreases branches, 0
  {
    branches == [] || (PiecesBounded(branches[0].pieces) && BranchesBounded(branches[1..]))
  }
}
