/** JSON documents. The same trees serve as data and, inside the faker, as schemas. */
module Json {

  /** A JSON number: the parser keeps integers apart from numbers written with a fraction. */
  datatype Number = Whole(i: int) | Fraction(r: real)

  /** `as_f64`, without its rounding. */
  function AsReal(n: Number): real {
    match n
    case Whole(i) => i as real
    case Fraction(r) => r
  }

  /** `Obj` is an ordered map in the source; equality there ignores insertion order, as it does here. */
  datatype Value =
    | Null
    | Bool(b: bool)
    | Num(n: Number)
    | Str(s: string)
    | Arr(items: seq<Value>)
    | Obj(fields: map<string, Value>)
  {
    /** `schema.get(key)`: absent for anything that is not an object. */
    predicate Has(key: string) {
      Obj? && key in fields
    }

    predicate HasStr(key: string) {
      Has(key) && fields[key].Str?
    }

    predicate HasArr(key: string) {
      Has(key) && fields[key].Arr?
    }

    predicate HasObj(key: string) {
      Has(key) && fields[key].Obj?
    }

    /** `schema.get(key)` read as an array, empty when it is absent or something else. */
    function ArrayAt(key: string): (items: seq<Value>)
      ensures forall x | x in items :: x < this
    {
      if HasArr(key) then
        assert fields[key] < this;
        fields[key].items
      else
        []
    }

    /** `schema.get(key)` read as an object, empty when it is absent or something else. */
    function ObjectAt(key: string): (m: map<string, Value>)
      ensures forall k | k in m :: m[k] < this
    {
      if HasObj(key) then
        assert fields[key] < this;
        fields[key].fields
      else
        map[]
    }

    /** `as_u64`: only a non-negative whole number counts. */
    predicate HasCount(key: string) {
      Has(key) && fields[key].Num? && fields[key].n.Whole? && 0 <= fields[key].n.i
    }

    function CountAt(key: string): nat
      requires HasCount(key)
    {
      fields[key].n.i
    }
  }

  /** The members of an array that are strings, in order. */
  function StringsOf(items: seq<Value>): (names: seq<string>)
    ensures forall s :: s in names <==> Str(s) in items
  {
    if items == [] then []
    else
      var rest := StringsOf(items[1..]);
      assert items == [items[0]] + items[1..];
      if items[0].Str? then [items[0].s] + rest else rest
  }

  /** The largest of a finite set of numbers, 0 when there are none. */
  ghost function MaxOf(ns: set<nat>): (m: nat)
    ensures forall n | n in ns :: n <= m
    ensures ns != {} ==> m in ns
    ensures ns == {} ==> m == 0
  {
    if ns == {} then 0
    else
      var n :| n in ns;
      var rest := MaxOf(ns - {n});
      assert forall x | x in ns :: x == n || x in ns - {n};
      if rest < n then n else rest
  }

  /** How many containers lie one inside another below the outermost one. */
  ghost function Height(v: Value): nat {
    match v
    case Arr(items) => MaxOf(set x | x in items :: Height(x) + 1)
    case Obj(fields) => MaxOf(set k | k in fields :: Height(fields[k]) + 1)
    case _ => 0
  }

  /** An array is as high as its highest item demands, and no higher. */
  lemma ArrayHeight(v: Value, bound: nat)
    requires v.Arr?
    ensures Height(v) <= bound <==> forall x | x in v.items :: Height(x) < bound
  {
    forall x | x in v.items
      ensures Height(x) < Height(v)
    {
      ItemIsLower(v, x);
    }
    if v.items != [] {
      var x := HighestItem(v);
    }
  }

  lemma ItemIsLower(v: Value, x: Value)
    requires v.Arr? && x in v.items
    ensures Height(x) < Height(v)
  {
    var hs: set<nat> := set y | y in v.items :: Height(y) + 1;
    assert Height(v) == MaxOf(hs);
    assert Height(x) + 1 in hs;
  }

  lemma HighestItem(v: Value) returns (x: Value)
    requires v.Arr? && v.items != []
    ensures x in v.items && Height(v) == Height(x) + 1
  {
    var hs: set<nat> := set x | x in v.items :: Height(x) + 1;
    assert Height(v) == MaxOf(hs);
    assert v.items[0] in v.items && Height(v.items[0]) + 1 in hs;
    x :| x in v.items && Height(x) + 1 == MaxOf(hs);
  }

  /** An object is as high as its highest field demands, and no higher. */
  lemma ObjectHeight(v: Value, bound: nat)
    requires v.Obj?
    ensures Height(v) <= bound <==> forall k | k in v.fields :: Height(v.fields[k]) < bound
  {
    forall k | k in v.fields
      ensures Height(v.fields[k]) < Height(v)
    {
      FieldIsLower(v, k);
    }
    if v.fields != map[] {
      var k := HighestField(v);
    }
  }

  lemma FieldIsLower(v: Value, k: string)
    requires v.Has(k)
    ensures Height(v.fields[k]) < Height(v)
  {
    var hs: set<nat> := set k | k in v.fields :: Height(v.fields[k]) + 1;
    assert Height(v) == MaxOf(hs) && Height(v.fields[k]) + 1 in hs;
  }

  lemma HighestField(v: Value) returns (k: string)
    requires v.Obj? && v.fields != map[]
    ensures k in v.fields && Height(v) == Height(v.fields[k]) + 1
  {
    var hs: set<nat> := set k | k in v.fields :: Height(v.fields[k]) + 1;
    assert Height(v) == MaxOf(hs);
    var some :| some in v.fields;
    assert Height(v.fields[some]) + 1 in hs;
    k :| k in v.fields && Height(v.fields[k]) + 1 == MaxOf(hs);
  }

  /** Every reference string written anywhere in a document. */
  ghost function Refs(v: Value): set<string> {
    match v
    case Arr(items) => set x, r | x in items && r in Refs(x) :: r
    case Obj(fields) =>
      (set k, r | k in fields && r in Refs(fields[k]) :: r)
      + (if v.HasStr("$ref") then {fields["$ref"].s} else {})
    case _ => {}
  }
}
