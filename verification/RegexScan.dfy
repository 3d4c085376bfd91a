/** The generator's scanners undo the printer. */
module RegexScan {
  import opened Strings
  import opened PatternText
  import opened Regexes

  // ---- nesting ----

  lemma {:induction false} FlatAppend(a: string, b: string, d: nat, pipes: bool)
    requires Flat(a, d, pipes).Some?
    ensures Flat(a + b, d, pipes) == Flat(b, Flat(a, d, pipes).value, pipes)
  {
    if a == "" {
      assert a + b == b;
    } else {
      assert (a + b)[1..] == a[1..] + b;
      FlatAppend(a[1..], b, if a[0] == '(' then d + 1 else if a[0] == ')' then d - 1 else d, pipes);
    }
  }

  lemma {:induction false} FlatPlain(t: string, d: nat, pipes: bool)
    requires forall c | c in t :: !Structural(c)
    ensures Flat(t, d, pipes) == Some(d)
  {
    if t != "" {
      assert t[0] in t;
      FlatPlain(t[1..], d, pipes);
    }
  }

  lemma {:induction false} FlatPrefix(a: string, b: string, d: nat, pipes: bool)
    requires Flat(a + b, d, pipes).Some?
    ensures Flat(a, d, pipes).Some?
  {
    if a != "" {
      assert (a + b)[1..] == a[1..] + b;
      FlatPrefix(a[1..], b, if a[0] == '(' then d + 1 else if a[0] == ')' then d - 1 else d, pipes);
    }
  }

  lemma {:induction false} FlatWithoutPipes(t: string, d: nat)
    requires Flat(t, d, false).Some?
    ensures Flat(t, d, true) == Flat(t, d, false)
  {
    if t != "" {
      FlatWithoutPipes(t[1..], if t[0] == '(' then d + 1 else if t[0] == ')' then d - 1 else d);
    }
  }

  lemma CloseStep(c: char, rest: string, depth: nat)
    requires depth > 0 && !(c == ')' && depth == 1)
    ensures Close([c] + rest, depth) == Later(Close(rest, Deeper(c, depth)), 1)
  {
    assert ([c] + rest)[1..] == rest;
  }

  lemma FlatStep(t: string, d: nat, e: nat)
    requires t != "" && Flat(t, d, true) == Some(e)
    ensures !(t[0] == ')' && d == 0) && Flat(t[1..], Deeper(t[0], d), true) == Some(e)
  {}

  lemma FirstOff(t: string, tail: string)
    requires t != ""
    ensures t + tail == [t[0]] + (t[1..] + tail)
  {}

  lemma OneOff(t: string, tail: string)
    requires t != ""
    ensures (t + tail)[0] == t[0] && (t + tail)[1..] == t[1..] + tail && |t + tail| > 0
  {}

  predicate ClosesAfter(p: string, depth: nat, r: Option<nat>)
    requires depth > 0
  {
    Close(p, depth) == r
  }

  lemma CloseOver(p: string, depth: nat, r: Option<nat>)
    requires p != "" && depth > 0 && !(p[0] == ')' && depth == 1) && ClosesAfter(p[1..], Deeper(p[0], depth), r)
    ensures ClosesAfter(p, depth, Later(r, 1))
  {}

  lemma CloseSkipsOne(t: string, tail: string, d: nat, r: Option<nat>)
    requires t != "" && !(t[0] == ')' && d == 0) && ClosesAfter(t[1..] + tail, Deeper(t[0], d) + 1, Later(r, |t| - 1))
    ensures ClosesAfter(t + tail, d + 1, Later(r, |t|))
  {
    var p := t + tail;
    OneOff(t, tail);
    LaterTwice(r, |t| - 1);
    assert Deeper(p[0], d + 1) == Deeper(t[0], d) + 1;
    CloseOver(p, d + 1, Later(r, |t| - 1));
  }

  /** A nested text is skipped by the search for the closing parenthesis... */
  lemma {:induction false} CloseSkips(t: string, tail: string, d: nat, e: nat, r: Option<nat>)
    requires Flat(t, d, true) == Some(e) && ClosesAfter(tail, e + 1, r)
    ensures ClosesAfter(t + tail, d + 1, Later(r, |t|))
  {
    if t == "" {
      assert t + tail == tail;
      assert Later(r, 0) == r;
    } else {
      FlatStep(t, d, e);
      CloseSkips(t[1..], tail, Deeper(t[0], d), e, r);
      CloseSkipsOne(t, tail, d, r);
    }
  }

  /** ... which ends inside a text that closes too much. */
  lemma {:induction false} CloseInside(t: string, tail: string, d: nat)
    requires Flat(t, d, true).None?
    ensures Close(t + tail, d + 1).Some? && Close(t + tail, d + 1).value < |t|
  {
    FirstOff(t, tail);
    if t[0] == ')' && d == 0 {
      assert (t + tail)[0] == ')';
    } else {
      CloseStep(t[0], t[1..] + tail, d + 1);
      CloseInside(t[1..], tail, Deeper(t[0], d));
    }
  }

  lemma LaterTwice(r: Option<nat>, n: nat)
    ensures Later(Later(r, n), 1) == Later(r, n + 1)
  {}

  /** A nested text is kept in one piece by the split at the pipes... */
  lemma {:induction false} AlternativesSkip(t: string, tail: string, d: nat)
    requires Flat(t, d, false).Some?
    ensures Alternatives(t + tail, d) == Prepended(t, Alternatives(tail, Flat(t, d, false).value))
  {
    if t == "" {
      assert t + tail == tail;
      var alts := Alternatives(tail, d);
      assert "" + alts[0] == alts[0];
    } else {
      assert (t + tail)[1..] == t[1..] + tail;
      AlternativesSkip(t[1..], tail, Deeper(t[0], d));
      var alts := Alternatives(tail, Flat(t, d, false).value);
      assert [t[0]] + (t[1..] + alts[0]) == t + alts[0];
    }
  }

  /** ... and a text that closes no more than it opens is cut short by a pipe outside its parentheses. */
  lemma {:induction false} AlternativesCut(t: string, tail: string, d: nat)
    requires Flat(t, d, true).Some? && Flat(t, d, false).None?
    ensures |Alternatives(t + tail, d)[0]| < |t|
  {
    assert (t + tail)[0] == t[0] && (t + tail)[1..] == t[1..] + tail;
    if !(t[0] == '|' && d == 0) {
      AlternativesCut(t[1..], tail, Deeper(t[0], d));
    }
  }

  lemma {:induction false} PrintItemsPlain(items: seq<Item>)
    requires ItemsOk(items)
    ensures ']' !in PrintItems(items)
  {
    if items != [] {
      PrintItemsPlain(items[1..]);
    }
  }

  lemma PrintQuantPlain(quant: Quant)
    ensures forall c | c in PrintQuant(quant) :: !Structural(c)
  {
    assert forall c | IsDigit(c) :: !Structural(c);
  }

  lemma FlatGroup(inner: string, d: nat, pipes: bool)
    requires Flat(inner, d + 1, pipes) == Some(d + 1)
    ensures Flat("(" + inner + ")", d, pipes) == Some(d)
  {
    FlatAppend(inner, ")", d + 1, pipes);
    assert ("(" + inner + ")")[1..] == inner + ")";
    assert ")"[1..] == "";
  }

  /** No parenthesis or pipe stands in an escape or a class. */
  predicate PlainAtom(atom: Atom)
    decreases atom, 0
  {
    if atom.Group? then PlainBranches(atom.branches) else forall c | c in PrintAtom(atom) :: !Structural(c)
  }

  predicate PlainPieces(pieces: seq<Piece>)
    decreases pieces, 0
  {
    pieces == [] ||
    var Piece(atom, quant) := pieces[0];
    assert atom < pieces[0];
    PlainAtom(atom) && PlainPieces(pieces[1..])
  }

  predicate PlainBranches(branches: seq<Branch>)
    decreases branches, 0
  {
    branches == [] || (PlainPieces(branches[0].pieces) && PlainBranches(branches[1..]))
  }

  lemma {:induction false} FlatAtom(atom: Atom, d: nat, pipes: bool)
    requires PlainAtom(atom)
    ensures Flat(PrintAtom(atom), d, pipes) == Some(d)
    decreases atom, 0
  {
    match atom
    case Group(branches) =>
      FlatBranches(branches, d + 1, pipes);
      FlatGroup(PrintBranches(branches), d, pipes);
    case _ =>
      FlatPlain(PrintAtom(atom), d, pipes);
  }

  lemma {:induction false} FlatPieces(pieces: seq<Piece>, d: nat, pipes: bool)
    requires PlainPieces(pieces)
    ensures Flat(PrintPieces(pieces), d, pipes) == Some(d)
    decreases pieces, 0
  {
    if pieces != [] {
      var Piece(atom, quant) := pieces[0];
      assert atom < pieces[0];
      FlatAtom(atom, d, pipes);
      PrintQuantPlain(quant);
      FlatPlain(PrintQuant(quant), d, pipes);
      FlatPieces(pieces[1..], d, pipes);
      FlatAppend(PrintQuant(quant), PrintPieces(pieces[1..]), d, pipes);
      FlatAppend(PrintAtom(atom), PrintQuant(quant) + PrintPieces(pieces[1..]), d, pipes);
    }
  }

  lemma {:induction false} FlatBranches(branches: seq<Branch>, d: nat, pipes: bool)
    requires PlainBranches(branches) && (d > 0 || pipes)
    ensures Flat(PrintBranches(branches), d, pipes) == Some(d)
    decreases branches, 0
  {
    if branches != [] {
      FlatPieces(branches[0].pieces, d, pipes);
      FlatAppend(PrintPieces(branches[0].pieces), MoreBranches(branches[1..]), d, pipes);
      FlatBranches(branches[1..], d, pipes);
      if branches[1..] != [] {
        assert MoreBranches(branches[1..])[1..] == PrintBranches(branches[1..]);
      }
    }
  }

  /** So every group is read whole whose escapes and classes hold no parentheses and pipes. */
  lemma PlainIsReadWhole(branches: seq<Branch>)
    requires PlainBranches(branches)
    ensures ReadWhole(branches)
  {
    FlatBranches(branches, 0, true);
    forall k | 0 <= k < |branches|
      ensures Flat(PrintPieces(branches[k].pieces), 0, false) == Some(0)
    {
      PlainBranch(branches, k);
      FlatPieces(branches[k].pieces, 0, false);
    }
  }

  lemma {:induction false} PlainBranch(branches: seq<Branch>, k: nat)
    requires k < |branches| && PlainBranches(branches)
    ensures PlainPieces(branches[k].pieces)
  {
    if k > 0 {
      assert branches[1..][k - 1] == branches[k];
      PlainBranch(branches[1..], k - 1);
    }
  }

  // ---- groups ----

  lemma CloseHere(rest: string, depth: nat)
    requires depth > 0
    ensures Close(")" + rest, depth) == Some(0) <==> depth == 1
    ensures depth > 1 && rest == "" ==> Close(")" + rest, depth).None?
  {
    if depth > 1 {
      CloseStep(')', rest, depth);
    }
  }

  lemma ClosesAt(inner: string, rest: string)
    ensures var r := Close(inner + (")" + rest), 1);
            && (r == Some(|inner|) <==> Flat(inner, 0, true) == Some(0))
            && (Flat(inner, 0, true).None? ==> r.Some? && r.value < |inner|)
            && (Flat(inner, 0, true).Some? && rest == "" ==> r.None? || r == Some(|inner|))
  {
    var tail := ")" + rest;
    if Flat(inner, 0, true).None? {
      CloseInside(inner, tail, 0);
    } else {
      var e := Flat(inner, 0, true).value;
      CloseSkips(inner, tail, 0, e, Close(tail, e + 1));
      CloseHere(rest, e + 1);
    }
  }

  /**
   * The group-end scanner stops at the parenthesis after `inner` if and only if `inner` is balanced; when that
   * parenthesis ends the text, if and only if `inner` closes no more than it opens.
   */
  lemma GroupOf(inner: string, rest: string)
    ensures var p := "(" + inner + ")" + rest;
            GroupEnd(p) == |inner| + 1 <==>
              if rest == "" then Flat(inner, 0, true).Some? else Flat(inner, 0, true) == Some(0)
  {
    ClosesAt(inner, rest);
    OpenTail(inner, rest);
    GroupEndIs("(" + inner + ")" + rest, Close(inner + (")" + rest), 1));
  }

  /** The end of a printed group is found where it was printed. */
  lemma GroupEndOf(branches: seq<Branch>, rest: string)
    requires ReadWhole(branches)
    ensures GroupEnd("(" + PrintBranches(branches) + ")" + rest) == |PrintBranches(branches)| + 1
  {
    GroupOf(PrintBranches(branches), rest);
  }

  function Texts(branches: seq<Branch>): (texts: seq<string>)
    ensures |texts| == |branches|
    ensures forall k | 0 <= k < |branches| :: texts[k] == PrintPieces(branches[k].pieces)
  {
    if branches == [] then [] else [PrintPieces(branches[0].pieces)] + Texts(branches[1..])
  }

  /**
   * The split puts the first pipe where `t` ends if and only if `t` is balanced and has no pipe outside parentheses.
   */
  lemma SplitOf(t: string, rest: string)
    requires Flat(t, 0, true).Some?
    ensures Alternatives(t + ("|" + rest), 0)[0] == t <==> Flat(t, 0, false) == Some(0)
    ensures Flat(t, 0, false) == Some(0) ==> Alternatives(t + ("|" + rest), 0) == [t] + Alternatives(rest, 0)
  {
    var tail := "|" + rest;
    assert tail[1..] == rest;
    if Flat(t, 0, false).None? {
      AlternativesCut(t, tail, 0);
    } else {
      AlternativesSkip(t, tail, 0);
      assert t + "" == t;
    }
  }

  lemma LastSplit(t: string)
    requires Flat(t, 0, true).Some?
    ensures Alternatives(t, 0) == [t] <==> Flat(t, 0, false).Some?
  {
    assert t + "" == t;
    if Flat(t, 0, false).None? {
      AlternativesCut(t, "", 0);
    } else {
      AlternativesSkip(t, "", 0);
    }
  }

  /** Of a balanced group, the split gives back the text of each branch if and only if each is kept in one piece. */
  lemma {:induction false} AlternativesOf(branches: seq<Branch>)
    requires branches != [] && Flat(PrintBranches(branches), 0, true) == Some(0)
    ensures Alternatives(PrintBranches(branches), 0) == Texts(branches) <==>
              forall k | 0 <= k < |branches| :: Flat(PrintPieces(branches[k].pieces), 0, false) == Some(0)
  {
    var first, others := PrintPieces(branches[0].pieces), branches[1..];
    FlatPrefix(first, MoreBranches(others), 0, true);
    assert forall k | 0 <= k < |others| :: others[k] == branches[k + 1];
    if others == [] {
      assert first + "" == first;
      LastSplit(first);
      if Flat(first, 0, false).Some? {
        FlatWithoutPipes(first, 0);
      }
    } else {
      var rest := PrintBranches(others);
      SplitOf(first, rest);
      if Flat(first, 0, false) == Some(0) {
        FlatWithoutPipes(first, 0);
        FlatAppend(first, "|" + rest, 0, true);
        assert ("|" + rest)[1..] == rest;
        AlternativesOf(others);
        assert ([first] + Alternatives(rest, 0))[1..] == Alternatives(rest, 0);
        assert Texts(branches)[1..] == Texts(others);
        OthersToo(branches);
      }
    }
  }

  lemma OthersToo(branches: seq<Branch>)
    requires branches != [] && Flat(PrintPieces(branches[0].pieces), 0, false) == Some(0)
    ensures (forall k | 0 <= k < |branches| :: Flat(PrintPieces(branches[k].pieces), 0, false) == Some(0)) <==>
            (forall k | 0 <= k < |branches[1..]| :: Flat(PrintPieces(branches[1..][k].pieces), 0, false) == Some(0))
  {
    var others := branches[1..];
    if forall k | 0 <= k < |others| :: Flat(PrintPieces(others[k].pieces), 0, false) == Some(0) {
      forall k | 0 < k < |branches|
        ensures Flat(PrintPieces(branches[k].pieces), 0, false) == Some(0)
      {
        assert others[k - 1] == branches[k];
      }
    }
  }

  /** Both scanners give a group back as it was printed, with text behind it, if and only if it is read whole. */
  lemma GroupReadExactly(branches: seq<Branch>, rest: string)
    requires branches != [] && rest != ""
    ensures var p := "(" + PrintBranches(branches) + ")" + rest;
            ReadWhole(branches) <==>
              && GroupEnd(p) == |PrintBranches(branches)| + 1
              && Alternatives(PrintBranches(branches), 0) == Texts(branches)
  {
    GroupOf(PrintBranches(branches), rest);
    if Flat(PrintBranches(branches), 0, true) == Some(0) {
      AlternativesOf(branches);
    }
  }

  // ---- classes ----

  lemma ClassEndOf(negated: bool, items: seq<Item>, rest: string)
    requires ItemsOk(items)
    ensures ClassEnd("[" + ClassText(negated, items) + "]" + rest) == |ClassText(negated, items)| + 1
  {
    var inner := ClassText(negated, items);
    PrintItemsPlain(items);
    var p := "[" + inner + "]" + rest;
    BracketSlices(inner, rest);
    FoundAt(p[1..], ']', |inner|);
  }

  /** A printed class is read item by item. */
  lemma MembersOf(items: seq<Item>)
    requires items != [] && ItemsOk(items)
    ensures Members(PrintItems(items)) == ItemMembers(items[0]) + Members(PrintItems(items[1..]))
  {
    var tail := PrintItems(items[1..]);
    DashIsLast(items[1..]);
    FirstItem(items[0], |items| == 1, tail);
  }

  /** A printed class starts with a dash only when the dash is all there is. */
  lemma DashIsLast(items: seq<Item>)
    requires ItemsOk(items)
    ensures PrintItems(items) != "" && PrintItems(items)[0] == '-' ==> |PrintItems(items)| == 1
  {
    if items != [] && PrintItems(items)[0] == '-' {
      assert items[1..] == [];
      assert PrintItems(items) == PrintItem(items[0]) + "";
    }
  }

  lemma FirstItem(item: Item, last: bool, tail: string)
    requires ItemOk(item, last) && (tail != "" && tail[0] == '-' ==> |tail| == 1)
    requires item.Escaped? && item.e == '-' ==> tail == ""
    ensures Members(PrintItem(item) + tail) == ItemMembers(item) + Members(tail)
  {
    var t := PrintItem(item) + tail;
    match item
    case One(c) => assert t[1..] == tail;
    case Range(lo, hi) => assert t[3..] == tail;
    case Escaped(e) => assert t[2..] == tail;
  }

  /** The class scanner inverts the printer: what it lists is what the items list. */
  lemma {:induction false} MembersListed(items: seq<Item>, c: char)
    requires ItemsOk(items)
    ensures c in Members(PrintItems(items)) <==> Lists(items, c)
  {
    if items != [] {
      MembersOf(items);
      MembersListed(items[1..], c);
    }
  }

  lemma {:induction false} ItemListed(items: seq<Item>, item: Item, c: char)
    requires item in items && c in ItemMembers(item)
    ensures Lists(items, c)
  {
    if item != items[0] {
      ItemListed(items[1..], item, c);
    }
  }

  lemma {:induction false} ItemAdmitted(items: seq<Item>, item: Item, c: char)
    requires item in items && ItemAdmits(item, c)
    ensures ItemsAdmit(items, c)
  {
    if item != items[0] {
      ItemAdmitted(items[1..], item, c);
    }
  }

  /** An escape lists only what it admits if and only if it is not misread. */
  lemma EscapedLetter(e: char)
    ensures (forall c | c in EscapeMembers(e) :: EscapeAdmits(e, c)) <==> e !in MISREAD
  {
    assert e in EscapeMembers(e) || e == 'd' || e == 'w' || e == 's';
  }

  /**
   * And it admits a letter or digit it does not list if and only if it is `\S`, or `\D` and the character is a letter.
   */
  lemma EscapeLeavesOut(e: char, c: char)
    requires c in Alphanumeric()
    ensures EscapeAdmits(e, c) && c !in EscapeMembers(e) <==> c != e && (e == 'S' || (e == 'D' && !IsDigit(c)))
  {
  }

  /**
   * A class lists what its items admit: only the letter of a misread escape may be listed and not admitted, and only
   * `\S` and `\D` admit letters and digits that are not listed.
   */
  lemma {:induction false} MembersAdmitted(items: seq<Item>, c: char)
    requires ItemsOk(items)
    ensures c in Members(PrintItems(items)) ==> ItemsAdmit(items, c) || (c in MISREAD && Escaped(c) in items)
    ensures c in Alphanumeric() && ItemsAdmit(items, c) ==>
              || c in Members(PrintItems(items)) || Escaped('S') in items || (Escaped('D') in items && !IsDigit(c))
  {
    if items != [] {
      MembersOf(items);
      MembersAdmitted(items[1..], c);
      if items[0].Escaped? {
        EscapedLetter(items[0].e);
        if c in Alphanumeric() {
          EscapeLeavesOut(items[0].e, c);
        }
      }
    }
  }

  function SomeListed(item: Item): char {
    match item
    case One(x) => x
    case Range(lo, hi) => lo
    case Escaped(e) => if e == 'd' then '0' else if e == 'w' then '_' else if e == 's' then ' ' else e
  }

  lemma SomeIsListed(item: Item, last: bool)
    requires ItemOk(item, last)
    ensures SomeListed(item) in ItemMembers(item)
  {
  }

  lemma SomeMember(items: seq<Item>) returns (c: char)
    requires items != [] && ItemsOk(items)
    ensures c in Members(PrintItems(items))
  {
    MembersOf(items);
    SomeIsListed(items[0], |items| == 1);
    c := SomeListed(items[0]);
  }

  /** Whatever is drawn from a printed class is in it. */
  lemma DrawnAdmitted(negated: bool, items: seq<Item>, c: char)
    requires items != [] && ItemsOk(items) && SoundClass(negated, items)
    requires c in Drawn(ClassText(negated, items))
    ensures Admits(Class(negated, items), c)
  {
    var t := ClassText(negated, items);
    if negated {
      assert t[1..] == PrintItems(items);
      var free :| free in Alphanumeric() && !Lists(items, free);
      MembersListed(items, free);
      assert free in ClassChars(t);
      MembersAdmitted(items, c);
      MembersListed(items, c);
    } else {
      PositiveDraws(items);
      MembersAdmitted(items, c);
    }
  }

  lemma PositiveDraws(items: seq<Item>)
    requires items != [] && ItemsOk(items)
    ensures Drawn(ClassText(false, items)) == Members(PrintItems(items))
  {
    var some := SomeMember(items);
    assert ClassText(false, items) == PrintItems(items);
    assert PrintItems(items)[0] != '^';
  }

  ghost predicate DrawsAdmitted(negated: bool, items: seq<Item>) {
    forall c | c in Drawn(ClassText(negated, items)) :: Admits(Class(negated, items), c)
  }

  /** A class whose items the scanner reads one by one is drawn from soundly exactly when it is sound. */
  lemma ClassIsExact(negated: bool, items: seq<Item>)
    requires items != [] && ItemsOk(items)
    ensures DrawsAdmitted(negated, items) <==> SoundClass(negated, items)
  {
    if SoundClass(negated, items) {
      forall c | c in Drawn(ClassText(negated, items))
        ensures Admits(Class(negated, items), c)
      {
        DrawnAdmitted(negated, items, c);
      }
    } else if negated {
      var c := NegatedMisses(items);
    } else {
      var e :| e in MISREAD && Escaped(e) in items && !ItemsAdmit(items, e);
      ItemListed(items, Escaped(e), e);
      MembersListed(items, e);
      PositiveDraws(items);
    }
  }

  lemma NegatedMisses(items: seq<Item>) returns (c: char)
    requires items != [] && ItemsOk(items) && !SoundClass(true, items)
    ensures c in Drawn(ClassText(true, items)) && ItemsAdmit(items, c)
  {
    var t := ClassText(true, items);
    assert t[1..] == PrintItems(items);
    forall c
      ensures c in Members(PrintItems(items)) <==> Lists(items, c)
    {
      MembersListed(items, c);
    }
    if forall c | c in Alphanumeric() :: Lists(items, c) {
      c := 'a';
      assert c in Alphanumeric();
      assert ClassChars(t) == {};
      MembersAdmitted(items, c);
    } else if Escaped('S') in items {
      c :| c in Alphanumeric() && !Lists(items, c);
      ItemAdmitted(items, Escaped('S'), c);
    } else {
      c :| c in Alphanumeric() && !IsDigit(c) && !Lists(items, c);
      ItemAdmitted(items, Escaped('D'), c);
    }
  }

  // ---- an escaped dash that is not last ----

  /**
   * What the scanner lists for an escaped dash and the item behind it: a range from the backslash to where that starts.
   */
  predicate DashLists(next: Item, c: char) {
    match next
    case One(x) => '\\' <= c <= x
    case Range(lo, hi) => '\\' <= c <= lo || c == '-' || c == hi
    case Escaped(e) => c == '\\' || c == e
  }

  lemma PlainChar(c: char, tail: string)
    requires (c == '\\' ==> tail == "") && (tail != "" && tail[0] == '-' ==> |tail| == 1)
    ensures Members([c] + tail) == {c} + Members(tail)
  {
    assert ([c] + tail)[1..] == tail;
  }

  lemma SpanRead(x: char, tail: string)
    ensures Members(['\\', '-', x] + tail) == Span('\\', x) + Members(tail)
  {
    assert (['\\', '-', x] + tail)[3..] == tail;
  }

  predicate DashReads(next: Item, tail: string, c: char) {
    c in Members("\\-" + (PrintItem(next) + tail)) <==> DashLists(next, c) || c in Members(tail)
  }

  lemma DashReadOne(x: char, tail: string, c: char)
    ensures DashReads(One(x), tail, c)
  {
    SpanRead(x, tail);
    assert "\\-" + (PrintItem(One(x)) + tail) == ['\\', '-', x] + tail;
  }

  lemma DashReadRange(lo: char, hi: char, tail: string, c: char)
    requires hi != '\\' && hi != '-' && (tail != "" && tail[0] == '-' ==> |tail| == 1)
    ensures DashReads(Range(lo, hi), tail, c)
  {
    var behind := ['-'] + ([hi] + tail);
    SpanRead(lo, behind);
    PlainChar('-', [hi] + tail);
    PlainChar(hi, tail);
    assert "\\-" + (PrintItem(Range(lo, hi)) + tail) == ['\\', '-', lo] + behind;
  }

  lemma DashReadEscape(e: char, tail: string, c: char)
    requires (e == '\\' ==> tail == "") && (tail != "" && tail[0] == '-' ==> |tail| == 1)
    ensures DashReads(Escaped(e), tail, c)
  {
    SpanRead('\\', [e] + tail);
    PlainChar(e, tail);
    assert "\\-" + (PrintItem(Escaped(e)) + tail) == ['\\', '-', '\\'] + ([e] + tail);
  }

  lemma DashRead(next: Item, last: bool, tail: string, c: char)
    requires ItemOk(next, last) && (next == Escaped('\\') ==> tail == "")
              && (tail != "" && tail[0] == '-' ==> |tail| == 1)
    ensures DashReads(next, tail, c)
  {
    match next
    case One(x) => DashReadOne(x, tail, c);
    case Range(lo, hi) => DashReadRange(lo, hi, tail, c);
    case Escaped(e) => DashReadEscape(e, tail, c);
  }

  lemma {:induction false} BeforeDash(pre: seq<Item>, more: seq<Item>, c: char)
    requires (forall x | x in pre :: ItemOk(x, false)) && more != [] && more[0] == Escaped('-')
    ensures c in Members(PrintItems(pre + more)) <==> Lists(pre, c) || c in Members(PrintItems(more))
    ensures PrintItems(pre + more) != "" && PrintItems(pre + more)[0] != '-' && PrintItems(pre + more)[0] != '^'
  {
    if pre == [] {
      assert pre + more == more;
    } else {
      assert (pre + more)[1..] == pre[1..] + more && (pre + more)[0] == pre[0];
      BeforeDash(pre[1..], more, c);
      FirstItem(pre[0], false, PrintItems(pre[1..] + more));
    }
  }

  lemma DashListed(pre: seq<Item>, next: Item, post: seq<Item>, c: char)
    requires (forall x | x in pre :: ItemOk(x, false)) && ItemsOk([next] + post)
              && (next == Escaped('\\') ==> post == [])
    ensures var items := pre + ([Escaped('-'), next] + post);
            c in Members(PrintItems(items)) <==> Lists(pre, c) || DashLists(next, c) || Lists(post, c)
  {
    var more := [Escaped('-'), next] + post;
    BeforeDash(pre, more, c);
    assert more[1..] == [next] + post && ([next] + post)[1..] == post;
    DashIsLast(post);
    DashRead(next, post == [], PrintItems(post), c);
    MembersListed(post, c);
    assert PrintItems(more) == "\\-" + (PrintItem(next) + PrintItems(post));
  }

  lemma {:induction false} ListedAdmitted(items: seq<Item>, c: char)
    requires Lists(items, c)
    ensures ItemsAdmit(items, c) || (c in MISREAD && Escaped(c) in items)
  {
    if c in ItemMembers(items[0]) {
      if items[0].Escaped? {
        EscapedLetter(items[0].e);
      }
    } else {
      ListedAdmitted(items[1..], c);
    }
  }

  lemma {:induction false} AdmittedWithin(a: seq<Item>, b: seq<Item>, c: char)
    ensures ItemsAdmit(a + b, c) <==> ItemsAdmit(a, c) || ItemsAdmit(b, c)
  {
    if a == [] {
      assert a + b == b;
    } else {
      assert (a + b)[1..] == a[1..] + b;
      AdmittedWithin(a[1..], b, c);
    }
  }

  /**
   * The range an escaped dash starts, when something stands behind it, is admitted anyway; and no class is left empty.
   */
  ghost predicate DashIsHarmless(pre: seq<Item>, next: Item, post: seq<Item>) {
    var items := pre + ([Escaped('-'), next] + post);
    match next
    case One(x) => (forall c | '\\' <= c <= x :: ItemsAdmit(items, c)) && (x < '\\' ==> pre != [] || post != [])
    case Range(lo, _) => forall c | '\\' <= c <= lo :: ItemsAdmit(items, c)
    case Escaped(e) => ItemsAdmit(items, '\\') && ItemsAdmit(items, e)
  }

  lemma DashAdmits(pre: seq<Item>, next: Item, post: seq<Item>, c: char)
    ensures ItemsAdmit(pre + ([Escaped('-'), next] + post), c) <==>
              ItemsAdmit(pre, c) || c == '-' || ItemAdmits(next, c) || ItemsAdmit(post, c)
  {
    var more := [Escaped('-'), next] + post;
    AdmittedWithin(pre, more, c);
    assert more[1..] == [next] + post && ([next] + post)[1..] == post;
  }

  lemma DashDraws(pre: seq<Item>, next: Item, post: seq<Item>)
    requires (forall x | x in pre :: ItemOk(x, false)) && ItemsOk([next] + post)
              && (next == Escaped('\\') ==> post == [])
    ensures var text := PrintItems(pre + ([Escaped('-'), next] + post));
            && ClassText(false, pre + ([Escaped('-'), next] + post)) == text
            && Drawn(text) == (if Members(text) == {} then Lower() else Members(text))
            && (Members(text) == {} <==> pre == [] && post == [] && next.One? && next.c < '\\')
  {
    var items := pre + ([Escaped('-'), next] + post);
    var text := PrintItems(items);
    BeforeDash(pre, [Escaped('-'), next] + post, 'a');
    forall c
      ensures c in Members(text) <==> Lists(pre, c) || DashLists(next, c) || Lists(post, c)
    {
      DashListed(pre, next, post, c);
    }
    if pre != [] {
      assert pre[0] in pre;
      SomeIsListed(pre[0], false);
      assert SomeListed(pre[0]) in Members(text);
    } else if post != [] {
      assert ([next] + post)[1..] == post;
      SomeIsListed(post[0], |post| == 1);
      assert SomeListed(post[0]) in Members(text);
    } else if next.One? && next.c < '\\' {
      assert Members(text) == {};
    } else {
      assert (if next.Range? then next.hi else '\\') in Members(text);
    }
  }

  lemma BesideDash(items: seq<Item>, c: char)
    ensures Lists(items, c) ==> ItemsAdmit(items, c) || (c in MISREAD && Escaped(c) in items)
    ensures c in MISREAD && Escaped(c) in items ==> Lists(items, c)
  {
    if Lists(items, c) {
      ListedAdmitted(items, c);
    }
    if c in MISREAD && Escaped(c) in items {
      ItemListed(items, Escaped(c), c);
    }
  }

  predicate DashMisreads(pre: seq<Item>, post: seq<Item>, c: char) {
    c in MISREAD && (Escaped(c) in pre || Escaped(c) in post)
  }

  lemma DashListsAdmitted(pre: seq<Item>, next: Item, post: seq<Item>, c: char)
    requires (forall x | x in pre :: ItemOk(x, false)) && ItemsOk([next] + post)
              && (next == Escaped('\\') ==> post == [])
    ensures var items := pre + ([Escaped('-'), next] + post);
            (c in Members(PrintItems(items)) ==> ItemsAdmit(items, c)) <==>
              (DashLists(next, c) || DashMisreads(pre, post, c) ==> ItemsAdmit(items, c))
  {
    DashListed(pre, next, post, c);
    DashAdmits(pre, next, post, c);
    BesideDash(pre, c);
    BesideDash(post, c);
  }

  lemma DashHarms(pre: seq<Item>, next: Item, post: seq<Item>)
    requires next.One? && next.c < '\\' ==> pre != [] || post != []
    requires next.Range? ==> next.lo <= next.hi
    ensures (forall c | DashLists(next, c) :: ItemsAdmit(pre + ([Escaped('-'), next] + post), c)) <==>
            DashIsHarmless(pre, next, post)
  {
    var items := pre + ([Escaped('-'), next] + post);
    match next
    case One(x) =>
      if DashIsHarmless(pre, next, post) {
        forall c | DashLists(next, c)
          ensures ItemsAdmit(items, c)
        {
          assert '\\' <= c <= x;
        }
      } else {
        var c :| '\\' <= c <= x && !ItemsAdmit(items, c);
        assert DashLists(next, c);
      }
    case Range(lo, hi) =>
      DashAdmits(pre, next, post, '-');
      DashAdmits(pre, next, post, hi);
      if !DashIsHarmless(pre, next, post) {
        var c :| '\\' <= c <= lo && !ItemsAdmit(items, c);
        assert DashLists(next, c);
      }
    case Escaped(e) => assert DashLists(next, '\\') && DashLists(next, e);
  }

  /**
   * An escaped dash with something behind it is drawn from soundly exactly when the range it is read as is harmless and
   * the letters of misread escapes are admitted by other items.
   */
  lemma EscapedDash(pre: seq<Item>, next: Item, post: seq<Item>)
    requires (forall x | x in pre :: ItemOk(x, false)) && ItemsOk([next] + post)
              && (next == Escaped('\\') ==> post == [])
    ensures var items := pre + ([Escaped('-'), next] + post);
            DrawsAdmitted(false, items) <==>
              && DashIsHarmless(pre, next, post)
              && forall e | DashMisreads(pre, post, e) :: ItemsAdmit(items, e)
  {
    var items := pre + ([Escaped('-'), next] + post);
    var text := PrintItems(items);
    DashDraws(pre, next, post);
    if Members(text) == {} {
      DashAdmits(pre, next, post, 'a');
      assert 'a' in Drawn(ClassText(false, items)) && !Admits(Class(false, items), 'a');
    } else {
      DashHarms(pre, next, post);
      forall c
        ensures (c in Members(text) ==> ItemsAdmit(items, c)) <==>
                (DashLists(next, c) || DashMisreads(pre, post, c) ==> ItemsAdmit(items, c))
      {
        DashListsAdmitted(pre, next, post, c);
      }
      assert DrawsAdmitted(false, items) <==> forall c | c in Members(text) :: ItemsAdmit(items, c);
    }
  }

  // ---- quantifiers ----

  predicate NoQuantifier(rest: string) {
    rest == "" || (rest[0] != '*' && rest[0] != '+' && rest[0] != '?' && rest[0] != '{')
  }

  lemma NumberOfDecimal(n: nat, default: nat)
    requires n <= USIZE_MAX
    ensures NumberOr(Decimal(n), default) == n
  {
    var s := Decimal(n);
    assert IsDigit(s[0]) by { assert s[0] in s; }
    assert IsDigit(s[|s| - 1]) by { assert s[|s| - 1] in s; }
    ParseDecimal(n);
  }

  /** What a quantifier is read as allows no count that the quantifier does not. */
  ghost predicate ReadsAs(q: Quantity, quant: Quant) {
    forall n | q.low <= n <= q.high && (!q.capped || QuantBounded(quant)) :: Allows(quant, n)
  }

  lemma BracesExactly(n: nat)
    requires n <= USIZE_MAX
    ensures Braces(Decimal(n)).width == |Decimal(n)| + 2 && ReadsAs(Braces(Decimal(n)), Exactly(n))
  {
    NotFound(Decimal(n), ',');
    NumberOfDecimal(n, 1);
  }

  lemma BracesFrom(n: nat, rest: string)
    requires n <= USIZE_MAX
    ensures var high := NumberOr(rest, SaturatingAdd(n, 5));
      Braces(Decimal(n) + "," + rest) ==
      Quantity(Min(n, MAX_REGEX_REPEAT), Max(Min(high, MAX_REGEX_REPEAT), Min(n, MAX_REGEX_REPEAT)),
               |Decimal(n)| + |rest| + 3, n > MAX_REGEX_REPEAT || high > MAX_REGEX_REPEAT)
  {
    var inner := Decimal(n) + "," + rest;
    assert inner[..|Decimal(n)|] == Decimal(n);
    assert inner[|Decimal(n)| + 1..] == rest;
    FoundAt(inner, ',', |Decimal(n)|);
    NumberOfDecimal(n, 1);
  }

  lemma BracesOf(quant: Quant)
    requires QuantOk(quant) && Counts(quant) != ""
    ensures Braces(Counts(quant)).width == |Counts(quant)| + 2 && ReadsAs(Braces(Counts(quant)), quant)
  {
    match quant
    case Exactly(n) => BracesExactly(n);
    case AtLeast(n) =>
      BracesFrom(n, "");
      assert Counts(quant) == Decimal(n) + "," + "";
    case Between(n, m) =>
      BracesFrom(n, Decimal(m));
      NumberOfDecimal(m, SaturatingAdd(n, 5));
  }

  lemma CountsPlain(quant: Quant)
    ensures '}' !in Counts(quant)
  {
    assert !IsDigit('}');
  }

  lemma QuantifierBraces(inner: string, rest: string)
    requires '}' !in inner
    ensures Quantifier("{" + inner + "}" + rest) == Braces(inner)
  {
    var p := "{" + inner + "}" + rest;
    assert p[1..][..|inner|] == inner && p[1..][|inner|] == '}';
    FoundAt(p[1..], '}', |inner|);
    assert p[1..|inner| + 1] == inner;
  }

  /** A printed quantifier is read whole, and every count it is read as is one it allows. */
  lemma QuantifierOf(quant: Quant, rest: string)
    requires QuantOk(quant) && NoQuantifier(rest)
    ensures Quantifier(PrintQuant(quant) + rest).width == |PrintQuant(quant)|
    ensures ReadsAs(Quantifier(PrintQuant(quant) + rest), quant)
  {
    if Counts(quant) != "" {
      BracesOf(quant);
      CountsPlain(quant);
      QuantifierBraces(Counts(quant), rest);
    } else if quant.Once? {
      assert PrintQuant(quant) + rest == rest;
    }
  }
}
