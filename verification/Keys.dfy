/** The order in which the entries of an ordered JSON object are visited. */
module Keys {

  /** Lexicographic order on code points. */
  predicate Before(a: string, b: string) {
    b != [] && (a == [] || a[0] < b[0] || (a[0] == b[0] && Before(a[1..], b[1..])))
  }

  /** At the first difference the smaller character comes first, and an end comes before any character. */
  lemma {:induction false} BeforeIs(a: string, b: string)
    ensures Before(a, b) <==> exists i: nat :: FirstDifference(a, b, i) && (i == |a| || (i < |b| && a[i] < b[i]))
    decreases |a|
  {
    if a != [] && b != [] && a[0] == b[0] {
      BeforeIs(a[1..], b[1..]);
      forall i: nat
        ensures FirstDifference(a[1..], b[1..], i) <==> FirstDifference(a, b, i + 1)
        ensures !FirstDifference(a, b, 0)
      {
        DifferenceLater(a, b, i);
      }
      if exists i: nat :: FirstDifference(a, b, i) && (i == |a| || (i < |b| && a[i] < b[i])) {
        var i: nat :| FirstDifference(a, b, i) && (i == |a| || (i < |b| && a[i] < b[i]));
        assert FirstDifference(a[1..], b[1..], i - 1);
      }
    } else {
      assert a != b ==> FirstDifference(a, b, 0);
    }
  }

  /** `a` and `b` agree on `i` characters and no more. */
  predicate FirstDifference(a: string, b: string, i: nat) {
    i <= |a| && i <= |b| && a[..i] == b[..i] && (i < |a| && i < |b| ==> a[i] != b[i]) && (i < |a| || i < |b|)
  }

  lemma DifferenceLater(a: string, b: string, i: nat)
    requires a != [] && b != [] && a[0] == b[0]
    ensures FirstDifference(a[1..], b[1..], i) <==> FirstDifference(a, b, i + 1)
    ensures !FirstDifference(a, b, 0)
  {
    if i < |a| && i < |b| {
      assert a[..i + 1] == [a[0]] + a[1..][..i] && b[..i + 1] == [b[0]] + b[1..][..i];
    }
  }

  lemma {:induction false} BeforeIsTotal(a: string, b: string)
    ensures a == b || Before(a, b) || Before(b, a)
    ensures !(Before(a, b) && Before(b, a))
    ensures !Before(a, a)
    decreases |a|
  {
    if a != [] {
      BeforeIsTotal(a[1..], a[1..]);
      if b != [] && a[0] == b[0] {
        BeforeIsTotal(a[1..], b[1..]);
        assert a == [a[0]] + a[1..] && b == [b[0]] + b[1..];
      }
    }
  }

  lemma {:induction false} BeforeIsTransitive(a: string, b: string, c: string)
    requires Before(a, b) && Before(b, c)
    ensures Before(a, c)
    decreases |a|
  {
    if a != [] && a[0] == b[0] && b[0] == c[0] {
      BeforeIsTransitive(a[1..], b[1..], c[1..]);
    }
  }

  predicate IsLeast(k: string, keys: set<string>) {
    k in keys && forall j | j in keys :: j == k || Before(k, j)
  }

  lemma {:induction false} LeastExists(keys: set<string>)
    requires keys != {}
    ensures exists k :: IsLeast(k, keys)
  {
    var x :| x in keys;
    if keys == {x} {
      assert IsLeast(x, keys);
    } else {
      assert keys - {x} != {};
      LeastExists(keys - {x});
      var y :| IsLeast(y, keys - {x});
      BeforeIsTotal(x, y);
      var k := if Before(x, y) then x else y;
      forall j | j in keys
        ensures j == k || Before(k, j)
      {
        if k == x && j != x && j != y {
          BeforeIsTransitive(x, y, j);
        }
      }
      assert IsLeast(k, keys);
    }
  }

  ghost function Least(keys: set<string>): (k: string)
    requires keys != {}
    ensures IsLeast(k, keys)
  {
    LeastExists(keys);
    var k :| IsLeast(k, keys);
    k
  }

  /** The keys in visiting order. */
  ghost function Sorted(keys: set<string>): (order: seq<string>)
    ensures forall k :: k in order <==> k in keys
  {
    if keys == {} then [] else [Least(keys)] + Sorted(keys - {Least(keys)})
  }

  lemma {:induction false} SortedRises(keys: set<string>)
    ensures forall i, j | 0 <= i < j < |Sorted(keys)| :: Before(Sorted(keys)[i], Sorted(keys)[j])
  {
    if keys != {} {
      var rest := Sorted(keys - {Least(keys)});
      SortedRises(keys - {Least(keys)});
      forall i, j | 0 <= i < j < |Sorted(keys)|
        ensures Before(Sorted(keys)[i], Sorted(keys)[j])
      {
        if i == 0 {
          assert rest[j - 1] in rest;
        } else {
          assert Before(rest[i - 1], rest[j - 1]);
        }
      }
    }
  }

  /** Removes the key that comes first from a set of keys still to be visited. */
  method TakeFirst(keys: set<string>) returns (first: string, rest: set<string>)
    requires keys != {}
    ensures first in keys && rest == keys - {first}
    ensures Sorted(keys) == [first] + Sorted(rest)
  {
    LeastExists(keys);
    first :| first in keys && IsLeast(first, keys);
    rest := keys - {first};
    BeforeIsTotal(first, Least(keys));
  }
}
