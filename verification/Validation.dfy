/** Validation of a value against a schema, and when one schema is at least as permissive as another. */
module Validation {
  import opened Bytes
  import opened Items
  import opened Json

  predicate SameType(a: Json, b: Json) {
    match (a, b)
    case (Null, Null) => true
    case (Boolean(_), Boolean(_)) => true
    case (Number(_), Number(_)) => true
    case (String(_), String(_)) => true
    case (Array(_), Array(_)) => true
    case (Object(_), Object(_)) => true
    case _ => false
  }

  /** `json_validate`: null admits everything, an array is described by its first item, an object by the members it must have. */
  predicate Validate(schema: Json, value: Json) {
    if !SameType(schema, value) && !schema.Null? then false
    else match schema
         case Array(items) =>
           items == [] || forall i :: 0 <= i < |value.items| ==> Validate(items[0], value.items[i])
         case Object(members) =>
           if members == [] then true
           else if |value.members| < |members| then false
           else forall i :: 0 <= i < |members| ==> ValidateMember(members, value.members, members[i].name)
         case _ => true
  }

  predicate ValidateMember(schema: seq<Entry<Json>>, value: seq<Entry<Json>>, name: CString)
    decreases schema, 0
  {
    Lookup(schema, name).Some? && Lookup(value, name).Some? && Validate(Lookup(schema, name).value, Lookup(value, name).value)
  }

  /** The early rejection by member count never refuses what the check member by member would accept. */
  lemma CountCheckIsRedundant(schema: seq<Entry<Json>>, value: seq<Entry<Json>>)
    requires Distinct(schema) && Distinct(value)
    ensures Validate(Object(schema), Object(value))
            <==> forall i :: 0 <= i < |schema| ==> ValidateMember(schema, value, schema[i].name)
  {
    if forall i :: 0 <= i < |schema| ==> ValidateMember(schema, value, schema[i].name) {
      FewerNames(schema, value);
    }
  }

  /**
   * Which values a schema accepts: null accepts every value, a leaf every value of its kind, an array without items
   * every array, an array with items the arrays whose items its first item accepts, and an object the objects that
   * have a member of each of its names with a value that its own member accepts.
   */
  lemma AcceptsIff(schema: Json, value: Json)
    requires WellFormed(schema) && WellFormed(value)
    ensures Validate(schema, value)
            <==> match schema
                 case Null => true
                 case Boolean(_) => value.Boolean?
                 case Number(_) => value.Number?
                 case String(_) => value.String?
                 case Array(items) =>
                   value.Array? && (items != [] ==> forall i :: 0 <= i < |value.items| ==> Validate(items[0], value.items[i]))
                 case Object(members) =>
                   value.Object? && forall i :: 0 <= i < |members| ==> HasAccepted(members[i].name, members[i].value, value.members)
  {
    if schema.Object? && value.Object? {
      var x, y := schema.members, value.members;
      CountCheckIsRedundant(x, y);
      forall i | 0 <= i < |x|
        ensures ValidateMember(x, y, x[i].name) <==> HasAccepted(x[i].name, x[i].value, y)
      {
        LookupAt(x, i);
        HasAcceptedIff(x[i].name, x[i].value, y);
      }
    }
  }

  /** A member of that name has a value that the schema accepts. */
  predicate HasAccepted(name: CString, schema: Json, members: seq<Entry<Json>>) {
    exists j :: 0 <= j < |members| && members[j].name == name && Validate(schema, members[j].value)
  }

  lemma HasAcceptedIff(name: CString, schema: Json, members: seq<Entry<Json>>)
    requires Distinct(members)
    ensures HasAccepted(name, schema, members) <==> Lookup(members, name).Some? && Validate(schema, Lookup(members, name).value)
  {
    hide Validate;
    forall j | 0 <= j < |members| && members[j].name == name
      ensures Lookup(members, name) == Some(members[j].value)
    {
      LookupAt(members, j);
    }
  }

  /** Schema `a` asks for nothing that schema `b` does not already guarantee. */
  predicate Subsumes(a: Json, b: Json) {
    match a
    case Null => true
    case Array(x) =>
      b.Array? && (x == [] || if b.items == [] then x[0].Null? else Subsumes(x[0], b.items[0]))
    case Object(x) =>
      b.Object? && forall i :: 0 <= i < |x| ==> SubsumesMember(x, b.members, x[i].name)
    case _ => SameType(a, b)
  }

  predicate SubsumesMember(x: seq<Entry<Json>>, y: seq<Entry<Json>>, name: CString)
    decreases x, 0
  {
    Lookup(x, name).Some? && Lookup(y, name).Some? && Subsumes(Lookup(x, name).value, Lookup(y, name).value)
  }

  lemma MemberIsWellFormed(members: seq<Entry<Json>>, name: CString)
    requires WellFormed(Object(members)) && Lookup(members, name).Some?
    ensures WellFormed(Lookup(members, name).value)
  {
  }

  lemma {:induction false} SubsumesIsSound(a: Json, b: Json, c: Json)
    requires WellFormed(a) && WellFormed(b) && WellFormed(c)
    requires Subsumes(a, b) && Validate(b, c)
    ensures Validate(a, c)
    decreases a
  {
    match a
    case Array(x) =>
      if x != [] && b.items != [] {
        forall i | 0 <= i < |c.items|
          ensures Validate(x[0], c.items[i])
        {
          SubsumesIsSound(x[0], b.items[0], c.items[i]);
        }
      }
    case Object(x) =>
      CountCheckIsRedundant(x, c.members);
      CountCheckIsRedundant(b.members, c.members);
      forall i | 0 <= i < |x|
        ensures ValidateMember(x, c.members, x[i].name)
      {
        var n := x[i].name;
        assert SubsumesMember(x, b.members, n);
        var j := IndexOf(b.members, n);
        assert b.members[j].name == n && ValidateMember(b.members, c.members, b.members[j].name);
        MemberIsWellFormed(x, n);
        MemberIsWellFormed(b.members, n);
        MemberIsWellFormed(c.members, n);
        SubsumesIsSound(Lookup(x, n).value, Lookup(b.members, n).value, Lookup(c.members, n).value);
      }
    case _ =>
  }

  // --- Completeness: a schema that does not subsume is told apart by some value ---

  /** A value that a schema accepts and that has nothing to spare. */
  function Sample(schema: Json): Json {
    match schema
    case Number(_) => Number(0)
    case Array(_) => Array([])
    case Object(members) => Object(seq(|members|, i requires 0 <= i < |members| => Entry(members[i].name, Sample(members[i].value))))
    case _ => schema
  }

  lemma SampleMembers(members: seq<Entry<Json>>, name: CString)
    requires Distinct(members)
    ensures var s := Sample(Object(members)).members;
            && Distinct(s)
            && Lookup(s, name) == match Lookup(members, name) case None => None case Some(v) => Some(Sample(v))
  {
    var s := Sample(Object(members)).members;
    assert forall i :: 0 <= i < |s| ==> s[i].name == members[i].name;
    if HasName(members, name) {
      var i := IndexOf(members, name);
      assert s[i].name == name;
      LookupAt(s, i);
    }
  }

  lemma {:induction false} SampleIsAccepted(schema: Json)
    requires WellFormed(schema)
    ensures WellFormed(Sample(schema)) && Validate(schema, Sample(schema))
    decreases schema
  {
    match schema
    case Object(members) =>
      var s := Sample(schema).members;
      SampleMembers(members, []);
      forall i | 0 <= i < |members|
        ensures WellFormed(s[i].value) && ValidateMember(members, s, members[i].name)
      {
        LookupAt(members, i);
        SampleMembers(members, members[i].name);
        SampleIsAccepted(members[i].value);
      }
    case _ =>
  }

  /** The sample of an object schema with one member's value exchanged for another that the schema accepts. */
  lemma {:induction false} ExchangeIsAccepted(members: seq<Entry<Json>>, name: CString, v: Json) returns (c: Json)
    requires WellFormed(Object(members)) && Lookup(members, name).Some?
    requires WellFormed(v) && Validate(Lookup(members, name).value, v)
    ensures c.Object? && WellFormed(c) && Validate(Object(members), c) && Lookup(c.members, name) == Some(v)
  {
    var s := Sample(Object(members)).members;
    c := Object(Put(s, name, v));
    SampleIsAccepted(Object(members));
    LookupAfterPut(s, name, v, name);
    forall i | 0 <= i < |members|
      ensures ValidateMember(members, c.members, members[i].name)
    {
      LookupAt(members, i);
      LookupAfterPut(s, name, v, members[i].name);
      assert ValidateMember(members, s, members[i].name);
    }
    CountCheckIsRedundant(members, c.members);
    PutKeepsWellFormed(s, name, v);
  }

  lemma {:induction false} Counterexample(a: Json, b: Json) returns (c: Json)
    requires WellFormed(a) && WellFormed(b) && !Subsumes(a, b)
    ensures WellFormed(c) && Validate(b, c) && !Validate(a, c)
    decreases a
  {
    SampleIsAccepted(b);
    if b.Null? {
      return Null;
    }
    if !SameType(a, b) {
      return Sample(b);
    }
    match a
    case Array(x) =>
      if b.items == [] {
        c := Array([Null]);
        assert c.items[0] == Null;
      } else {
        var d := Counterexample(x[0], b.items[0]);
        c := Array([d]);
        assert c.items[0] == d;
      }
    case Object(x) =>
      var i :| 0 <= i < |x| && !SubsumesMember(x, b.members, x[i].name);
      var n := x[i].name;
      LookupAt(x, i);
      if Lookup(b.members, n).None? {
        c := Sample(b);
        SampleMembers(b.members, n);
      } else {
        MemberIsWellFormed(b.members, n);
        var d := Counterexample(x[i].value, Lookup(b.members, n).value);
        c := ExchangeIsAccepted(b.members, n, d);
      }
      assert !ValidateMember(x, c.members, n);
    case _ =>
  }

  /** `Subsumes` is exact: it holds if and only if everything `b` accepts, `a` accepts. */
  lemma SubsumesIsExact(a: Json, b: Json)
    requires WellFormed(a) && WellFormed(b)
    ensures Subsumes(a, b) <==> forall c :: WellFormed(c) && Validate(b, c) ==> Validate(a, c)
  {
    hide Subsumes, Validate, WellFormed;
    if Subsumes(a, b) {
      forall c | WellFormed(c) && Validate(b, c)
        ensures Validate(a, c)
      {
        SubsumesIsSound(a, b, c);
      }
    } else {
      var c := Counterexample(a, b);
    }
  }

  // --- Transitivity ---

  predicate NoEmptyArray(v: Json) {
    match v
    case Array(items) => items != [] && forall i :: 0 <= i < |items| ==> NoEmptyArray(items[i])
    case Object(members) => forall i :: 0 <= i < |members| ==> NoEmptyArray(members[i].value)
    case _ => true
  }

  /** All items of some arrays. */
  function AllItems(arrays: seq<Json>): seq<Json>
    requires forall k :: 0 <= k < |arrays| ==> arrays[k].Array?
  {
    if arrays == [] then [] else arrays[0].items + AllItems(arrays[1..])
  }

  lemma {:induction false} AllItemsAre(arrays: seq<Json>)
    requires forall k :: 0 <= k < |arrays| ==> arrays[k].Array?
    ensures forall k, i :: 0 <= k < |arrays| && 0 <= i < |arrays[k].items| ==> arrays[k].items[i] in AllItems(arrays)
    ensures forall u :: u in AllItems(arrays) ==> exists k :: 0 <= k < |arrays| && u in arrays[k].items
    decreases |arrays|
  {
    if arrays != [] {
      var first, rest := arrays[0].items, arrays[1..];
      AllItemsAre(rest);
      assert AllItems(arrays) == first + AllItems(rest);
      hide AllItems;
      forall k, i | 0 <= k < |arrays| && 0 <= i < |arrays[k].items|
        ensures arrays[k].items[i] in first + AllItems(rest)
      {
        if k == 0 {
          assert first[i] in first;
        } else {
          assert arrays[k] == rest[k - 1] && rest[k - 1].items[i] in AllItems(rest);
        }
      }
      forall u | u in first + AllItems(rest)
        ensures exists k :: 0 <= k < |arrays| && u in arrays[k].items
      {
        if u in first {
          assert u in arrays[0].items;
        } else {
          assert u in AllItems(rest);
          var k :| 0 <= k < |rest| && u in rest[k].items;
          assert arrays[k + 1] == rest[k] && u in arrays[k + 1].items;
        }
      }
    }
  }

  /** No schema but null accepts all of these: one of them is null, or two differ in type. */
  predicate Mixed(values: seq<Json>) {
    exists k :: 0 <= k < |values| && (values[k].Null? || !SameType(values[0], values[k]))
  }

  /** A member of that name in every one of some objects. */
  predicate InAll(objects: seq<Json>, name: CString)
    requires forall k :: 0 <= k < |objects| ==> objects[k].Object?
  {
    forall k :: 0 <= k < |objects| ==> Lookup(objects[k].members, name).Some?
  }

  function MembersNamed(objects: seq<Json>, name: CString): (values: seq<Json>)
    requires forall k :: 0 <= k < |objects| ==> objects[k].Object?
    requires InAll(objects, name)
    ensures |values| == |objects|
    ensures forall k :: 0 <= k < |objects| ==> values[k] == Lookup(objects[k].members, name).value
  {
    seq(|objects|, k requires 0 <= k < |objects| => Lookup(objects[k].members, name).value)
  }

  /**
   * Every schema that accepts `b` and all the others subsumes `b`.  Only the first item of an array describes it as a
   * schema, so the other items count among the others; an empty array describes nothing, so no schema of items may be
   * left that accepts what the others hold, except null.
   */
  predicate Firm(b: Json, others: seq<Json>)
    decreases b
  {
    match b
    case Array(items) =>
      (exists k :: 0 <= k < |others| && !others[k].Array?)
      || if items == [] then Mixed(AllItems(others)) else Firm(items[0], items[1..] + AllItems(others))
    case Object(members) =>
      (exists k :: 0 <= k < |others| && !others[k].Object?)
      || forall i :: 0 <= i < |members| ==>
           InAll(others, members[i].name) ==> Firm(members[i].value, MembersNamed(others, members[i].name))
    case _ => true
  }

  ghost predicate AcceptsAll(a: Json, values: seq<Json>) {
    forall k :: 0 <= k < |values| ==> Validate(a, values[k])
  }

  lemma {:induction false} FirmIsSubsumed(a: Json, b: Json, others: seq<Json>)
    requires WellFormed(a) && WellFormed(b) && forall k :: 0 <= k < |others| ==> WellFormed(others[k])
    requires Firm(b, others) && Validate(a, b) && AcceptsAll(a, others)
    ensures Subsumes(a, b)
    decreases b
  {
    match a
    case Array(x) =>
      if x != [] {
        assert forall k :: 0 <= k < |others| ==> Validate(a, others[k]) && others[k].Array?;
        ItemsAccepted(x[0], others);
        if b.items != [] {
          var rest := b.items[1..] + AllItems(others);
          assert forall k :: 0 <= k < |rest| ==> Validate(x[0], rest[k]) && WellFormed(rest[k]);
          FirmIsSubsumed(x[0], b.items[0], rest);
        }
      }
    case Object(x) =>
      assert forall k :: 0 <= k < |others| ==> Validate(a, others[k]) && others[k].Object?;
      forall i | 0 <= i < |x|
        ensures SubsumesMember(x, b.members, x[i].name)
      {
        MemberIsFirm(x, i, b, others);
        var n := x[i].name;
        FirmIsSubsumed(x[i].value, Lookup(b.members, n).value, MembersNamed(others, n));
      }
    case _ =>
  }

  /** What an array schema accepts, its first item accepts item by item. */
  lemma ItemsAccepted(x0: Json, others: seq<Json>)
    requires forall k :: 0 <= k < |others| ==> others[k].Array? && WellFormed(others[k])
    requires forall k, i :: 0 <= k < |others| && 0 <= i < |others[k].items| ==> Validate(x0, others[k].items[i])
    ensures forall u :: u in AllItems(others) ==> Validate(x0, u) && WellFormed(u)
    ensures Mixed(AllItems(others)) ==> x0.Null?
  {
    AllItemsAre(others);
    var all := AllItems(others);
    forall u | u in all
      ensures Validate(x0, u) && WellFormed(u)
    {
      var k :| 0 <= k < |others| && u in others[k].items;
      var i :| 0 <= i < |others[k].items| && others[k].items[i] == u;
    }
    if k :| 0 <= k < |all| && (all[k].Null? || !SameType(all[0], all[k])) {
      assert Validate(x0, all[k]) && Validate(x0, all[0]);
    }
  }

  /** A member an object schema names is present in what the schema accepts, and accepted there. */
  lemma AcceptedMember(x: seq<Entry<Json>>, i: nat, o: Json)
    requires WellFormed(Object(x)) && WellFormed(o) && o.Object? && i < |x| && Validate(Object(x), o)
    ensures Lookup(x, x[i].name) == Some(x[i].value) && WellFormed(x[i].value)
    ensures var v := Lookup(o.members, x[i].name); v.Some? && WellFormed(v.value) && Validate(x[i].value, v.value)
  {
    LookupAt(x, i);
    CountCheckIsRedundant(x, o.members);
    assert ValidateMember(x, o.members, x[i].name);
    MemberIsWellFormed(o.members, x[i].name);
  }

  /** The members named by an object schema meet the premises again. */
  lemma MemberIsFirm(x: seq<Entry<Json>>, i: nat, b: Json, others: seq<Json>)
    requires WellFormed(Object(x)) && WellFormed(b) && b.Object? && i < |x| && Firm(b, others) && Validate(Object(x), b)
    requires forall k :: 0 <= k < |others| ==> others[k].Object? && WellFormed(others[k]) && Validate(Object(x), others[k])
    ensures var n := x[i].name;
            && Lookup(x, n) == Some(x[i].value) && WellFormed(x[i].value)
            && Lookup(b.members, n).Some? && WellFormed(Lookup(b.members, n).value) && Validate(x[i].value, Lookup(b.members, n).value)
            && InAll(others, n) && Firm(Lookup(b.members, n).value, MembersNamed(others, n))
            && AcceptsAll(x[i].value, MembersNamed(others, n))
            && forall k :: 0 <= k < |others| ==> WellFormed(MembersNamed(others, n)[k])
  {
    hide Validate, WellFormed;
    var n := x[i].name;
    AcceptedMember(x, i, b);
    forall k | 0 <= k < |others|
      ensures var v := Lookup(others[k].members, n); v.Some? && WellFormed(v.value) && Validate(x[i].value, v.value)
    {
      AcceptedMember(x, i, others[k]);
    }
    var j := IndexOf(b.members, n);
    assert b.members[j].name == n && InAll(others, b.members[j].name);
  }

  // --- A document that is not firm breaks transitivity ---

  /** A schema that asks for nothing but the type. */
  function Open(v: Json): Json {
    match v
    case Array(_) => Array([])
    case Object(_) => Object([])
    case Number(_) => Number(0)
    case _ => v
  }

  /** A schema that accepts a document and the others, but does not subsume it. */
  lemma {:induction false} Breach(b: Json, others: seq<Json>) returns (a: Json)
    requires WellFormed(b) && (forall k :: 0 <= k < |others| ==> WellFormed(others[k])) && !Firm(b, others)
    ensures WellFormed(a) && Validate(a, b) && AcceptsAll(a, others) && !Subsumes(a, b)
    decreases b, 1
  {
    hide Validate, AcceptsAll, Subsumes, Mixed;
    match b
    case Array(items) => a := ArrayBreach(items, others);
    case Object(members) => a := ObjectBreach(members, others);
    case _ =>
  }

  lemma {:induction false} ArrayBreach(items: seq<Json>, others: seq<Json>) returns (a: Json)
    requires forall k :: 0 <= k < |items| ==> WellFormed(items[k])
    requires forall k :: 0 <= k < |others| ==> others[k].Array? && WellFormed(others[k])
    requires if items == [] then !Mixed(AllItems(others)) else !Firm(items[0], items[1..] + AllItems(others))
    ensures WellFormed(a) && Validate(a, Array(items)) && AcceptsAll(a, others) && !Subsumes(a, Array(items))
    decreases items, 0
  {
    hide Firm;
    AllItemsAre(others);
    var all := AllItems(others);
    var x;
    if items == [] {
      x := if all == [] then String([]) else Open(all[0]);
      assert forall k :: 0 <= k < |all| ==> Validate(x, all[k]);
    } else {
      ItemsWellFormed(others);
      var rest := items[1..] + all;
      assert forall k :: 0 <= k < |rest| ==> WellFormed(rest[k]);
      x := Breach(items[0], rest);
      ItemsOf(x, items, all);
    }
    a := Array([x]);
    hide Validate;
    ArrayAccepts(x, others);
    OneItemAccepts(x, Array(items));
  }

  lemma ItemsWellFormed(others: seq<Json>)
    requires forall k :: 0 <= k < |others| ==> others[k].Array? && WellFormed(others[k])
    ensures forall k :: 0 <= k < |AllItems(others)| ==> WellFormed(AllItems(others)[k])
  {
    AllItemsAre(others);
    var all := AllItems(others);
    forall k | 0 <= k < |all|
      ensures WellFormed(all[k])
    {
      var u := all[k];
      assert u in all;
      var j :| 0 <= j < |others| && u in others[j].items;
    }
  }

  lemma {:induction false} ObjectBreach(members: seq<Entry<Json>>, others: seq<Json>) returns (a: Json)
    requires WellFormed(Object(members)) && forall k :: 0 <= k < |others| ==> others[k].Object? && WellFormed(others[k])
    requires exists i :: 0 <= i < |members| && InAll(others, members[i].name)
                         && !Firm(members[i].value, MembersNamed(others, members[i].name))
    ensures WellFormed(a) && Validate(a, Object(members)) && AcceptsAll(a, others) && !Subsumes(a, Object(members))
    decreases members, 0
  {
    hide Firm, Validate;
    var i :| 0 <= i < |members| && InAll(others, members[i].name) && !Firm(members[i].value, MembersNamed(others, members[i].name));
    var n := members[i].name;
    var values := MembersNamed(others, n);
    forall k | 0 <= k < |others|
      ensures WellFormed(values[k])
    {
      MemberIsWellFormed(others[k].members, n);
    }
    var x := Breach(members[i].value, values);
    a := Object([Entry(n, x)]);
    LookupAt(members, i);
    MemberAccepts(n, x, Object(members));
    forall k | 0 <= k < |others|
      ensures Validate(a, others[k])
    {
      assert Validate(x, values[k]);
      MemberAccepts(n, x, others[k]);
    }
    assert !SubsumesMember(a.members, members, a.members[0].name);
  }

  lemma ItemsOf(x: Json, items: seq<Json>, all: seq<Json>)
    requires items != [] && Validate(x, items[0]) && AcceptsAll(x, items[1..] + all)
    ensures AcceptsAll(x, items) && AcceptsAll(x, all)
  {
    hide Validate;
    var rest := items[1..] + all;
    assert forall k :: 0 < k < |items| ==> items[k] == rest[k - 1];
    assert forall k :: 0 <= k < |all| ==> all[k] == rest[|items| - 1 + k];
  }

  lemma OneItemAccepts(x: Json, o: Json)
    requires o.Array?
    ensures Validate(Array([x]), o) <==> AcceptsAll(x, o.items)
  {
    assert [x][0] == x;
  }

  lemma ArrayAccepts(x: Json, others: seq<Json>)
    requires forall k :: 0 <= k < |others| ==> others[k].Array?
    requires AcceptsAll(x, AllItems(others))
    ensures AcceptsAll(Array([x]), others)
  {
    hide Validate;
    AllItemsAre(others);
    var all := AllItems(others);
    forall k | 0 <= k < |others|
      ensures Validate(Array([x]), others[k])
    {
      forall i | 0 <= i < |others[k].items|
        ensures Validate(x, others[k].items[i])
      {
        var j :| 0 <= j < |all| && all[j] == others[k].items[i];
      }
      OneItemAccepts(x, others[k]);
    }
  }

  lemma MemberAccepts(n: CString, x: Json, o: Json)
    requires o.Object? && Lookup(o.members, n).Some? && Validate(x, Lookup(o.members, n).value)
    ensures Validate(Object([Entry(n, x)]), o)
    ensures Lookup([Entry(n, x)], n) == Some(x)
  {
    assert IndexOf([Entry(n, x)], n) == 0;
    assert ValidateMember([Entry(n, x)], o.members, n);
  }

  /**
   * Exactly the firm documents pass validation on: what a schema accepts, and in its turn accepts a third document as
   * a schema, lets the schema accept the third one too.
   */
  lemma TransitiveIffFirm(b: Json)
    requires WellFormed(b)
    ensures (forall a, c :: WellFormed(a) && WellFormed(c) && Validate(a, b) && Validate(b, c) ==> Validate(a, c))
            <==> Firm(b, [])
  {
    hide Subsumes, Validate, WellFormed, Firm;
    if Firm(b, []) {
      forall a, c | WellFormed(a) && WellFormed(c) && Validate(a, b) && Validate(b, c)
        ensures Validate(a, c)
      {
        FirmIsSubsumed(a, b, []);
        SubsumesIsSound(a, b, c);
      }
    } else {
      var a := Breach(b, []);
      var c := Counterexample(a, b);
    }
  }

  /** A document without an empty array is firm. */
  lemma {:induction false} NoEmptyArrayIsFirm(b: Json, others: seq<Json>)
    requires NoEmptyArray(b)
    ensures Firm(b, others)
    decreases b
  {
    match b
    case Array(items) =>
      if forall k :: 0 <= k < |others| ==> others[k].Array? {
        NoEmptyArrayIsFirm(items[0], items[1..] + AllItems(others));
      }
    case Object(members) =>
      if forall k :: 0 <= k < |others| ==> others[k].Object? {
        forall i | 0 <= i < |members| && InAll(others, members[i].name)
          ensures Firm(members[i].value, MembersNamed(others, members[i].name))
        {
          NoEmptyArrayIsFirm(members[i].value, MembersNamed(others, members[i].name));
        }
      }
    case _ =>
  }

  /** Validation is transitive through any middle document without an empty array. */
  lemma ValidateIsTransitive(a: Json, b: Json, c: Json)
    requires WellFormed(a) && WellFormed(b) && WellFormed(c) && NoEmptyArray(b)
    requires Validate(a, b) && Validate(b, c)
    ensures Validate(a, c)
  {
    NoEmptyArrayIsFirm(b, []);
    FirmIsSubsumed(a, b, []);
    SubsumesIsSound(a, b, c);
  }

  /** Through an empty array it is not: the array of strings accepts `[]`, which accepts `[0]`, which the first refuses. */
  lemma EmptyArrayBreaksTransitivity()
    ensures var a, b, c := Array([String([])]), Array([]), Array([Number(0)]);
            Validate(a, b) && Validate(b, c) && !Validate(a, c)
  {
    var a, c := Array([String([])]), Array([Number(0)]);
    assert !Validate(a.items[0], c.items[0]);
  }
}
