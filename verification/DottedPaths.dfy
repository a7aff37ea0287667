/** Dotted names: reading and writing members of nested objects. */
module DottedPaths {
  import opened Bytes
  import opened Items
  import opened Json

  const DOT: byte := 0x2E

  /** `strchr(name, '.')`: the position of the first dot, or the length. */
  function DotPosition(name: CString): (d: nat)
    ensures d <= |name| && DOT !in name[..d] && (d < |name| ==> name[d] == DOT)
  {
    if name == [] || name[0] == DOT then 0
    else
      var d := DotPosition(name[1..]);
      assert name[..d + 1] == [name[0]] + name[1..][..d];
      d + 1
  }

  /** The components of a dotted name; there is always at least one. */
  function Components(name: CString): (path: seq<CString>)
    ensures path != []
    decreases |name|
  {
    var d := DotPosition(name);
    if d == |name| then [name] else [name[..d]] + Components(name[d + 1..])
  }

  lemma ComponentsStep(name: CString)
    ensures var d := DotPosition(name);
            if d == |name| then Components(name) == [name]
            else |Components(name)| > 1 && Components(name)[0] == name[..d] && Components(name)[1..] == Components(name[d + 1..])
  {
    var d := DotPosition(name);
    hide DotPosition;
    if d < |name| {
      assert Components(name) == [name[..d]] + Components(name[d + 1..]);
    }
  }

  predicate Dotless(path: seq<CString>) {
    forall k :: 0 <= k < |path| ==> 0x2E !in path[k]
  }

  lemma FirstDot(name: CString, head: CString, rest: seq<byte>)
    requires DOT !in head && name == head + [DOT] + rest
    ensures DotPosition(name) == |head| && name[..|head|] == head && name[|head| + 1..] == rest
  {
    var d := DotPosition(name);
    assert forall k :: 0 <= k < |head| ==> name[k] == head[k] && head[k] in head;
    assert forall k :: 0 <= k < d ==> name[..d][k] == name[k];
    assert name[|head|] == DOT;
  }

  lemma JoinedIs(path: seq<CString>)
    requires path != []
    ensures Joined(path, [DOT]) == if |path| == 1 then path[0] else path[0] + [DOT] + Joined(path[1..], [DOT])
    ensures |path| > 1 ==> DOT in Joined(path, [DOT])
  {
    if |path| > 1 {
      assert Joined(path, [DOT])[|path[0]|] == DOT;
    }
  }

  /** The components of a name are the one way to split it into dotless pieces with dots between them. */
  lemma {:induction false} ComponentsIff(name: CString, path: seq<CString>)
    ensures path == Components(name) <==> path != [] && Dotless(path) && Joined(path, Ascii(".")) == name
    decreases |name|
  {
    hide DotPosition, Components, Joined;
    assert Ascii(".") == [DOT];
    ComponentsStep(name);
    var d := DotPosition(name);
    if path != [] {
      JoinedIs(path);
    }
    if d == |name| {
      assert name[..d] == name && (|path| == 1 ==> path == [path[0]]);
    } else {
      assert name == name[..d] + [DOT] + name[d + 1..] && DOT in name;
      ComponentsIff(name[d + 1..], Components(name[d + 1..]));
      if path == Components(name) {
        assert forall k :: 0 < k < |path| ==> path[k] == path[1..][k - 1];
      }
      if |path| > 1 && Dotless(path) && Joined(path, [DOT]) == name {
        FirstDot(name, path[0], Joined(path[1..], [DOT]));
        ComponentsIff(name[d + 1..], path[1..]);
        assert path == [path[0]] + path[1..] && Components(name) == [name[..d]] + Components(name)[1..];
      }
    }
  }

  function AsObject(v: Option<Json>): Option<seq<Entry<Json>>> {
    if v.Some? && v.value.Object? then Some(v.value.members) else None
  }

  function LookupIn(o: Option<seq<Entry<Json>>>, name: CString): Option<Json> {
    match o
    case None => None
    case Some(members) => Lookup(members, name)
  }

  /** `json_object_dotget_value`, on an object that may be absent. */
  function DotGet(o: Option<seq<Entry<Json>>>, name: CString): Option<Json>
    decreases |name|
  {
    var d := DotPosition(name);
    if d == |name| then LookupIn(o, name)
    else DotGet(AsObject(LookupIn(o, name[..d])), name[d + 1..])
  }

  /** `json_object_set_value`: a value that already has a parent is refused. */
  function SetValue(members: seq<Entry<Json>>, name: CString, value: Json, attached: bool): Option<seq<Entry<Json>>> {
    if attached then None else Some(Put(members, name, value))
  }

  /** `json_object_dotset_value`: the members afterwards, or None when it fails. */
  function DotSet(members: seq<Entry<Json>>, name: CString, value: Json, attached: bool): Option<seq<Entry<Json>>>
    decreases |name|
  {
    var d := DotPosition(name);
    if d == |name| then SetValue(members, name, value, attached)
    else
      var head, rest := name[..d], name[d + 1..];
      var found: Option<Json> := Lookup(members, head);
      match found
      case Some(Object(inner)) =>
        (match DotSet(inner, rest, value, attached)
         case None => None
         case Some(changed) => Some(Put(members, head, Object(changed))))
      case Some(_) => None
      case None =>
        match DotSet([], rest, value, attached)
        case None => None
        case Some(made) => Some(members + [Entry(head, Object(made))])
  }

  // --- The same along a path of components ---

  function GetPath(o: Option<seq<Entry<Json>>>, path: seq<CString>): Option<Json>
    requires path != []
    decreases |path|
  {
    if |path| == 1 then LookupIn(o, path[0]) else GetPath(AsObject(LookupIn(o, path[0])), path[1..])
  }

  lemma {:induction false} DotGetIsGetPath(o: Option<seq<Entry<Json>>>, name: CString)
    ensures DotGet(o, name) == GetPath(o, Components(name))
    decreases |name|
  {
    hide DotPosition, Components, LookupIn;
    var d := DotPosition(name);
    ComponentsStep(name);
    if d < |name| {
      DotGetIsGetPath(AsObject(LookupIn(o, name[..d])), name[d + 1..]);
    }
  }

  function SetPath(members: seq<Entry<Json>>, path: seq<CString>, value: Json, attached: bool): Option<seq<Entry<Json>>>
    requires path != []
    decreases |path|
  {
    if |path| == 1 then SetValue(members, path[0], value, attached)
    else
      var found: Option<Json> := Lookup(members, path[0]);
      match found
      case Some(Object(inner)) =>
        (match SetPath(inner, path[1..], value, attached)
         case None => None
         case Some(changed) => Some(Put(members, path[0], Object(changed))))
      case Some(_) => None
      case None =>
        match SetPath([], path[1..], value, attached)
        case None => None
        case Some(made) => Some(members + [Entry(path[0], Object(made))])
  }

  lemma {:induction false} DotSetIsSetPath(members: seq<Entry<Json>>, name: CString, value: Json, attached: bool)
    ensures DotSet(members, name, value, attached) == SetPath(members, Components(name), value, attached)
    decreases |name|
  {
    hide DotPosition, Components, Put, Lookup, SetValue;
    var d := DotPosition(name);
    ComponentsStep(name);
    if d < |name| {
      var inner := AsObject(Lookup(members, name[..d]));
      DotSetIsSetPath(if inner.Some? then inner.value else [], name[d + 1..], value, attached);
    }
  }

  /** The object under a component: the one that is there, or the empty one that setting makes. */
  function Inner(members: seq<Entry<Json>>, name: CString): seq<Entry<Json>> {
    match AsObject(Lookup(members, name))
    case None => []
    case Some(inner) => inner
  }

  /** One level of setting, for both the present and the absent component. */
  lemma SetPathStep(members: seq<Entry<Json>>, path: seq<CString>, value: Json, attached: bool)
    requires |path| > 1 && WellFormed(Object(members)) && SetPath(members, path, value, attached).Some?
    ensures WellFormed(Object(Inner(members, path[0])))
    ensures SetPath(Inner(members, path[0]), path[1..], value, attached).Some?
    ensures var changed := SetPath(Inner(members, path[0]), path[1..], value, attached).value;
            SetPath(members, path, value, attached).value == Put(members, path[0], Object(changed))
  {
  }

  lemma {:induction false} SetPathWellFormed(members: seq<Entry<Json>>, path: seq<CString>, value: Json, attached: bool)
    requires path != [] && WellFormed(Object(members)) && WellFormed(value) && SetPath(members, path, value, attached).Some?
    ensures WellFormed(Object(SetPath(members, path, value, attached).value))
    decreases |path|
  {
    if |path| == 1 {
      PutKeepsWellFormed(members, path[0], value);
    } else {
      SetPathStep(members, path, value, attached);
      SetPathWellFormed(Inner(members, path[0]), path[1..], value, attached);
      PutKeepsWellFormed(members, path[0], Object(SetPath(Inner(members, path[0]), path[1..], value, attached).value));
    }
  }

  /** Reading `q` once `path` has been set to `value`: behind it, inside the value; at a prefix, an object; elsewhere, as before. */
  ghost predicate ReadsAfterSet(members: seq<Entry<Json>>, after: seq<Entry<Json>>, path: seq<CString>, value: Json, q: seq<CString>)
    requires path != [] && q != []
  {
    if q == path then GetPath(Some(after), q) == Some(value)
    else if path < q then GetPath(Some(after), q) == GetPath(AsObject(Some(value)), q[|path|..])
    else if q < path then AsObject(GetPath(Some(after), q)).Some?
    else GetPath(Some(after), q) == GetPath(Some(members), q)
  }

  /** One level up: what holds of the object under the first component holds of the whole. */
  lemma ReadsOneLevelUp(members: seq<Entry<Json>>, path: seq<CString>, value: Json, inner: seq<Entry<Json>>, changed: seq<Entry<Json>>,
                        q: seq<CString>)
    requires |path| > 1 && q != [] && Distinct(members) && inner == Inner(members, path[0])
    requires q[0] == path[0] && |q| > 1 ==> ReadsAfterSet(inner, changed, path[1..], value, q[1..])
    ensures ReadsAfterSet(members, Put(members, path[0], Object(changed)), path, value, q)
  {
    LookupAfterPut(members, path[0], Object(changed), q[0]);
    hide Put, Lookup, Distinct;
    if q[0] == path[0] && |q| > 1 {
      assert q == path <==> q[1..] == path[1..];
      assert path < q <==> path[1..] < q[1..];
      assert q < path <==> q[1..] < path[1..];
      assert |path| <= |q| ==> q[1..][|path[1..]|..] == q[|path|..];
      InnerReads(members, path[0], q);
    }
  }

  lemma InnerReads(members: seq<Entry<Json>>, name: CString, q: seq<CString>)
    requires |q| > 1 && q[0] == name
    ensures GetPath(Some(members), q) == GetPath(Some(Inner(members, name)), q[1..])
  {
    if AsObject(Lookup(members, name)).None? {
      NothingBehindAbsent(q[1..]);
    }
  }

  lemma {:induction false} SetPathThenGetPath(members: seq<Entry<Json>>, path: seq<CString>, value: Json, attached: bool, q: seq<CString>)
    requires path != [] && q != [] && WellFormed(Object(members)) && SetPath(members, path, value, attached).Some?
    ensures ReadsAfterSet(members, SetPath(members, path, value, attached).value, path, value, q)
    decreases |path|
  {
    hide ReadsAfterSet, WellFormed;
    assert Distinct(members) by { DistinctMembers(members); }
    if |path| == 1 {
      ReadsAtOnce(members, path, value, q);
    } else {
      SetPathStep(members, path, value, attached);
      var inner := Inner(members, path[0]);
      var changed := SetPath(inner, path[1..], value, attached).value;
      if q[0] == path[0] && |q| > 1 {
        SetPathThenGetPath(inner, path[1..], value, attached, q[1..]);
      }
      ReadsOneLevelUp(members, path, value, inner, changed, q);
    }
  }

  lemma DistinctMembers(members: seq<Entry<Json>>)
    requires WellFormed(Object(members))
    ensures Distinct(members)
  {
  }

  lemma ReadsAtOnce(members: seq<Entry<Json>>, path: seq<CString>, value: Json, q: seq<CString>)
    requires |path| == 1 && q != [] && Distinct(members)
    ensures ReadsAfterSet(members, Put(members, path[0], value), path, value, q)
  {
    LookupAfterPut(members, path[0], value, q[0]);
    assert path < q ==> q[|path|..] == q[1..];
  }

  /** The first `k` components lead to a value that is not an object. */
  predicate BlockedAt(members: seq<Entry<Json>>, path: seq<CString>, k: nat)
    requires 0 < k < |path|
  {
    var v := GetPath(Some(members), path[..k]);
    v.Some? && !v.value.Object?
  }

  lemma {:induction false} SetPathFailsIff(members: seq<Entry<Json>>, path: seq<CString>, value: Json, attached: bool)
    requires path != []
    ensures SetPath(members, path, value, attached).None? <==> attached || exists k :: 0 < k < |path| && BlockedAt(members, path, k)
    decreases |path|
  {
    if |path| > 1 {
      var found := Lookup(members, path[0]);
      var inner := Inner(members, path[0]);
      SetPathFailsIff(inner, path[1..], value, attached);
      assert path[..1] == [path[0]];
      if found.Some? && !found.value.Object? {
        assert BlockedAt(members, path, 1);
      } else {
        forall k | 1 < k < |path|
          ensures BlockedAt(members, path, k) <==> BlockedAt(inner, path[1..], k - 1)
        {
          assert path[..k][1..] == path[1..][..k - 1];
          if found.None? { NothingBehindAbsent(path[1..][..k - 1]); }
        }
        assert !BlockedAt(members, path, 1);
        if j :| 0 < j < |path[1..]| && BlockedAt(inner, path[1..], j) { assert BlockedAt(members, path, j + 1); }
      }
    }
  }

  lemma {:induction false} NothingBehindAbsent(path: seq<CString>)
    requires path != []
    ensures GetPath(None, path).None? && GetPath(Some([]), path).None?
    decreases |path|
  {
    if |path| > 1 {
      NothingBehindAbsent(path[1..]);
    }
  }

  // --- Main results, on dotted names ---

  /** What was set is read back, and names that are neither a prefix nor an extension of it keep their result. */
  lemma DotSetThenDotGet(members: seq<Entry<Json>>, name: CString, value: Json, attached: bool, other: CString)
    requires WellFormed(Object(members)) && DotSet(members, name, value, attached).Some?
    ensures var after := DotSet(members, name, value, attached).value;
            && DotGet(Some(after), name) == Some(value)
            && (!(Components(name) <= Components(other)) && !(Components(other) <= Components(name)) ==>
                  DotGet(Some(after), other) == DotGet(Some(members), other))
            && (WellFormed(value) ==> WellFormed(Object(after)))
  {
    hide DotSet, DotGet, SetPath, GetPath, Components, WellFormed;
    var p, q := Components(name), Components(other);
    DotSetIsSetPath(members, name, value, attached);
    var after := SetPath(members, p, value, attached).value;
    DotGetIsGetPath(Some(after), name);
    DotGetIsGetPath(Some(after), other);
    DotGetIsGetPath(Some(members), other);
    SetPathThenGetPath(members, p, value, attached, p);
    SetPathThenGetPath(members, p, value, attached, q);
    if WellFormed(value) { SetPathWellFormed(members, p, value, attached); }
  }

  /** Setting fails exactly when the value has a parent or a proper prefix of the name leads to something that is not an object. */
  lemma DotSetFailsIff(members: seq<Entry<Json>>, name: CString, value: Json, attached: bool)
    ensures DotSet(members, name, value, attached).None?
            <==> attached || exists k :: 0 < k < |Components(name)| && BlockedAt(members, Components(name), k)
  {
    DotSetIsSetPath(members, name, value, attached);
    SetPathFailsIff(members, Components(name), value, attached);
  }
}
