/** Deep equality of values: equality up to the order of object members. */
module Equality {
  import opened Bytes
  import opened Items
  import opened Json

  /** A value without member order: objects are finite maps. */
  datatype Canon =
    | CNull
    | CBoolean(b: bool)
    | CNumber(n: int)
    | CString'(text: seq<byte>)
    | CArray(items: seq<Canon>)
    | CObject(members: map<CString, Canon>)

  ghost function Canonical(v: Json): Canon
    requires WellFormed(v)
  {
    match v
    case Null => CNull
    case Boolean(b) => CBoolean(b)
    case Number(n) => CNumber(n)
    case String(text) => CString'(text)
    case Array(items) => CArray(seq(|items|, i requires 0 <= i < |items| => Canonical(items[i])))
    case Object(members) => CObject(map n: CString | n in Names(members) :: NamesAreLookups(members, n); Canonical(Lookup(members, n).value))
  }

  /** `json_value_equals`; an absent member has a type of its own. */
  predicate ValueEquals(a: Json, b: Json) {
    match (a, b)
    case (Null, Null) => true
    case (Boolean(x), Boolean(y)) => x == y
    case (Number(x), Number(y)) => x == y
    case (String(x), String(y)) => x == y
    case (Array(x), Array(y)) => |x| == |y| && forall i :: 0 <= i < |x| ==> ValueEquals(x[i], y[i])
    case (Object(x), Object(y)) => |x| == |y| && forall i :: 0 <= i < |x| ==> MemberEquals(x, y, x[i].name)
    case _ => false
  }

  predicate MemberEquals(x: seq<Entry<Json>>, y: seq<Entry<Json>>, name: CString)
    decreases x, 0
  {
    Lookup(x, name).Some? && Lookup(y, name).Some? && ValueEquals(Lookup(x, name).value, Lookup(y, name).value)
  }

  lemma CanonicalMember(members: seq<Entry<Json>>, name: CString)
    requires WellFormed(Object(members))
    ensures name in Canonical(Object(members)).members <==> HasName(members, name)
    ensures HasName(members, name) ==>
              WellFormed(Lookup(members, name).value) && Canonical(Object(members)).members[name] == Canonical(Lookup(members, name).value)
  {
  }

  /** The comparison holds exactly when the two values are the same up to member order. */
  lemma {:induction false} EqualsIffCanonical(a: Json, b: Json)
    requires WellFormed(a) && WellFormed(b)
    ensures ValueEquals(a, b) <==> Canonical(a) == Canonical(b)
    decreases a
  {
    match (a, b)
    case (Array(x), Array(y)) =>
      var cx, cy := Canonical(a).items, Canonical(b).items;
      forall i | 0 <= i < |x| && i < |y|
        ensures ValueEquals(x[i], y[i]) <==> cx[i] == cy[i]
      {
        EqualsIffCanonical(x[i], y[i]);
      }
    case (Object(x), Object(y)) =>
      ObjectsEqualIffCanonical(x, y);
    case _ =>
  }

  lemma {:induction false} ObjectsEqualIffCanonical(x: seq<Entry<Json>>, y: seq<Entry<Json>>)
    requires WellFormed(Object(x)) && WellFormed(Object(y))
    ensures ValueEquals(Object(x), Object(y)) <==> Canonical(Object(x)) == Canonical(Object(y))
    decreases x
  {
    var cx, cy := Canonical(Object(x)).members, Canonical(Object(y)).members;
    forall i | 0 <= i < |x|
      ensures x[i].name in cx
      ensures MemberEquals(x, y, x[i].name) <==> x[i].name in cy && cx[x[i].name] == cy[x[i].name]
    {
      LookupAt(x, i);
      CanonicalMember(x, x[i].name);
      CanonicalMember(y, x[i].name);
      if HasName(y, x[i].name) {
        EqualsIffCanonical(x[i].value, Lookup(y, x[i].name).value);
      }
    }
    SameMaps(x, y, cx, cy);
  }

  /** Two maps over the names of two objects agree as soon as the sizes do and one side's names agree. */
  lemma SameMaps(x: seq<Entry<Json>>, y: seq<Entry<Json>>, cx: map<CString, Canon>, cy: map<CString, Canon>)
    requires Distinct(x) && Distinct(y) && cx.Keys == Names(x) && cy.Keys == Names(y)
    ensures cx == cy <==> |x| == |y| && forall i :: 0 <= i < |x| ==> x[i].name in cx && x[i].name in cy && cx[x[i].name] == cy[x[i].name]
  {
    DistinctNames(x);
    DistinctNames(y);
    assert forall i :: 0 <= i < |x| ==> x[i] in x && x[i].name in Names(x);
    if |x| == |y| && forall i :: 0 <= i < |x| ==> x[i].name in cx && x[i].name in cy && cx[x[i].name] == cy[x[i].name] {
      assert Names(x) <= Names(y);
      SubsetOfSameSize(Names(x), Names(y));
      forall n | n in cx
        ensures cx[n] == cy[n]
      {
        var i :| 0 <= i < |x| && x[i].name == n;
      }
    }
  }

  /** Hence the comparison is an equivalence relation. */
  lemma EqualsIsEquivalence(a: Json, b: Json, c: Json)
    requires WellFormed(a) && WellFormed(b) && WellFormed(c)
    ensures ValueEquals(a, a)
    ensures ValueEquals(a, b) ==> ValueEquals(b, a)
    ensures ValueEquals(a, b) && ValueEquals(b, c) ==> ValueEquals(a, c)
  {
    hide ValueEquals, Canonical, WellFormed;
    EqualsIffCanonical(a, a);
    EqualsIffCanonical(a, b);
    EqualsIffCanonical(b, a);
    EqualsIffCanonical(b, c);
    EqualsIffCanonical(a, c);
  }
}
