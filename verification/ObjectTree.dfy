/** Objects and arrays nested in each other, in place: every object owns a hash table, every array its items, and what is in them. */
module ObjectTree {
  import opened Bytes
  import opened Items
  import opened Json
  import opened HashTable
  import opened DottedPaths

  /** What a member or an item refers to: an object or an array, which can be changed in place, or a plain value. */
  datatype Slot = Leaf(leaf: Json) | Sub(node: ObjectNode) | List(list: ListNode)

  ghost function SlotNode(slot: Slot): set<object> {
    match slot
    case Leaf(_) => {}
    case Sub(node) => {node}
    case List(list) => {list}
  }

  ghost function SlotRepr(slot: Slot): set<object>
    reads SlotNode(slot)
  {
    match slot
    case Leaf(_) => {}
    case Sub(node) => node.Repr
    case List(list) => list.Repr
  }

  /** What a value brings into a tree: nothing, when it has a parent and is refused. */
  ghost function Brought(slot: Slot, attached: bool): set<object>
    reads SlotNode(slot)
  {
    if attached then {} else SlotRepr(slot)
  }

  /** The value a slot stands for. */
  ghost function SlotValue(slot: Slot): Json
    reads SlotNode(slot)
  {
    match slot
    case Leaf(v) => v
    case Sub(node) => Object(node.value)
    case List(list) => Array(list.value)
  }

  ghost predicate SlotValid(slot: Slot)
    reads SlotNode(slot) + SlotRepr(slot)
    decreases SlotRepr(slot), 2
  {
    match slot
    case Leaf(v) => !v.Object? && !v.Array?
    case Sub(node) => node.Valid()
    case List(list) => list.Valid()
  }

  /**
   * Everything under the members, but perhaps under the one at `skip`, is whole, lies within `all` but outside `own`,
   * and shares nothing with what is under another member; `value` is what the members stand for.
   */
  ghost predicate Nested(items: seq<Entry<Slot>>, value: seq<Entry<Json>>, own: set<object>, all: set<object>, skip: int)
    reads all - own
    decreases all, 0
  {
    && own <= all && own != {}
    && |value| == |items|
    && (forall i :: 0 <= i < |items| ==> value[i].name == items[i].name)
    && (forall i :: 0 <= i < |items| && i != skip ==>
          var slot := items[i].value;
          SlotNode(slot) <= all - own && SlotRepr(slot) <= all - own && SlotValid(slot))
    && (forall i, j :: 0 <= i < j < |items| && i != skip && j != skip ==>
          SlotRepr(items[i].value) !! SlotRepr(items[j].value))
    && (forall i :: 0 <= i < |items| && i != skip ==> value[i].value == SlotValue(items[i].value))
  }

  const NOTHING := -1

  lemma {:induction false} SameIndex<V, W>(a: seq<Entry<V>>, b: seq<Entry<W>>, name: CString)
    requires |a| == |b| && forall i :: 0 <= i < |a| ==> a[i].name == b[i].name
    ensures IndexOf(a, name) == IndexOf(b, name)
  {
    if a != [] {
      SameIndex(a[..|a| - 1], b[..|b| - 1], name);
    }
  }

  lemma AppendNested(items: seq<Entry<Slot>>, value: seq<Entry<Json>>, own: set<object>, all: set<object>,
                     name: CString, slot: Slot, grown: set<object>)
    requires Nested(items, value, own, all, NOTHING) && SlotValid(slot) && SlotRepr(slot) !! all + grown
    requires grown * all <= own && grown != {}
    ensures Nested(items + [Entry(name, slot)], value + [Entry(name, SlotValue(slot))], grown,
                   all + grown + SlotRepr(slot), NOTHING)
  {
  }

  lemma ReplaceNested(items: seq<Entry<Slot>>, value: seq<Entry<Json>>, own: set<object>, all: set<object>, i: nat,
                      slot: Slot, grown: set<object>)
    requires Nested(items, value, own, all, NOTHING) && SlotValid(slot) && SlotRepr(slot) !! all + grown
    requires grown * all <= own && grown != {} && i < |items|
    ensures var name := items[i].name;
            Nested(items[i := Entry(name, slot)], value[i := Entry(name, SlotValue(slot))], grown,
                   all + grown + SlotRepr(slot), NOTHING)
  {
  }

  /** A member's new object must share nothing with what is there; the table itself may have moved to fresh arrays. */
  lemma PutNested(items: seq<Entry<Slot>>, value: seq<Entry<Json>>, own: set<object>, all: set<object>,
                  name: CString, slot: Slot, grown: set<object>)
    requires Nested(items, value, own, all, NOTHING) && SlotValid(slot) && SlotRepr(slot) !! all + grown
    requires grown * all <= own && grown != {}
    ensures Nested(Put(items, name, slot), Put(value, name, SlotValue(slot)), grown, all + grown + SlotRepr(slot), NOTHING)
  {
    SameIndex(items, value, name);
    var i := IndexOf(items, name);
    hide Nested;
    if i < 0 {
      AppendNested(items, value, own, all, name, slot, grown);
    } else {
      ReplaceNested(items, value, own, all, i, slot, grown);
    }
  }

  /** Looking a name up among the members and among the values they stand for. */
  lemma LookupNested(items: seq<Entry<Slot>>, value: seq<Entry<Json>>, own: set<object>, all: set<object>, name: CString)
    requires Nested(items, value, own, all, NOTHING)
    ensures var found := Lookup(items, name);
            && (found.None? ==> Lookup(value, name) == None && !HasName(items, name))
            && (found.Some? ==> Lookup(value, name) == Some(SlotValue(found.value)) && SlotRepr(found.value) <= all
                                && (SlotValue(found.value).Object? ==> found.value.Sub?))
    ensures |items| == |value|
  {
    SameIndex(items, value, name);
  }

  lemma NodeInRepr(slot: Slot)
    requires SlotValid(slot)
    ensures SlotNode(slot) <= SlotRepr(slot)
  {
  }

  /** Sets the object of member `k` apart, so that it can change. */
  lemma Isolate(items: seq<Entry<Slot>>, value: seq<Entry<Json>>, own: set<object>, all: set<object>, k: nat)
    requires Nested(items, value, own, all, NOTHING) && k < |items| && items[k].value.Sub?
    ensures var n := items[k].value.node;
            n.Valid() && n in n.Repr && n.Repr <= all - own && Nested(items, value, own + n.Repr, all, k)
  {
    var n := items[k].value.node;
    assert SlotValid(items[k].value) && SlotRepr(items[k].value) == n.Repr;
    forall i | 0 <= i < |items| && i != k
      ensures SlotNode(items[i].value) <= all - (own + n.Repr) && SlotRepr(items[i].value) <= all - (own + n.Repr)
    {
      NodeInRepr(items[i].value);
      assert SlotRepr(items[i].value) !! SlotRepr(items[k].value);
    }
  }

  /** Puts the object of member `k` back once it has changed. */
  lemma Rejoin(items: seq<Entry<Slot>>, value: seq<Entry<Json>>, own: set<object>, all: set<object>, k: nat, before: set<object>)
    requires k < |items| && items[k].value.Sub? && own != {} && own + before <= all
    requires Nested(items, value, own + before, all, k)
    requires var n := items[k].value.node; n.Valid() && n.Repr !! own && n.Repr * all <= before
    ensures var n := items[k].value.node;
            Nested(items, value[k := Entry(items[k].name, Object(n.value))], own, all + n.Repr, NOTHING)
  {
    var n := items[k].value.node;
    var after := value[k := Entry(items[k].name, Object(n.value))];
    NodeInRepr(items[k].value);
    assert SlotRepr(items[k].value) == n.Repr && SlotValue(items[k].value) == Object(n.value);
    forall i | 0 <= i < |items|
      ensures SlotNode(items[i].value) <= all + n.Repr - own && SlotRepr(items[i].value) <= all + n.Repr - own
      ensures SlotValid(items[i].value) && after[i].value == SlotValue(items[i].value)
      ensures i != k ==> SlotRepr(items[i].value) !! n.Repr
    {
      if i != k {
        assert SlotRepr(items[i].value) <= all - (own + before);
      }
    }
  }

  class ObjectNode {
    const table: JsonObject<Slot>
    ghost var Repr: set<object>
    ghost var value: seq<Entry<Json>>

    ghost predicate Valid()
      reads this, Repr
      decreases Repr, 1
    {
      && this in Repr && table in Repr && table.Repr() <= Repr && this !in table.Repr() && table.Valid()
      && Nested(table.Contents(), value, {this} + table.Repr(), Repr, NOTHING)
    }

    constructor ()
      ensures Valid() && fresh(Repr) && value == []
    {
      table := new JsonObject<Slot>(0);
      value := [];
      new;
      Repr := {this} + table.Repr();
    }

    lemma Footprint()
      requires Valid()
      ensures this in Repr && table in Repr && table.Repr() <= Repr && this !in table.Repr() && table.Valid() && table.count == |value|
    {
    }

    lemma LookupHere(name: CString)
      requires Valid()
      ensures table.Valid()
      ensures var found := Lookup(table.Contents(), name);
              && (found.None? ==> Lookup(value, name) == None && !HasName(table.Contents(), name))
              && (found.Some? ==> Lookup(value, name) == Some(SlotValue(found.value)) && SlotRepr(found.value) <= Repr
                                  && (SlotValue(found.value).Object? ==> found.value.Sub?))
    {
      hide Nested, Lookup, HasName, Consistent, ValidCapacity;
      LookupNested(table.Contents(), value, {this} + table.Repr(), Repr, name);
    }

    /** Takes a member's new value in, once it is in the table. */
    ghost method Adopt(items: seq<Entry<Slot>>, own: set<object>, name: CString, slot: Slot)
      requires this in Repr && table in Repr && this !in table.Repr() && table.Valid()
      requires Nested(items, value, own, Repr, NOTHING) && table.Contents() == Put(items, name, slot)
      requires SlotValid(slot) && SlotRepr(slot) !! Repr + table.Repr() && ({this} + table.Repr()) * Repr <= own
      modifies this
      ensures Valid() && Repr == old(Repr) + table.Repr() + SlotRepr(slot)
      ensures value == Put(old(value), name, SlotValue(slot))
      ensures IndexOf(items, name) == IndexOf(old(value), name)
    {
      hide Nested, Put, Consistent, ValidCapacity;
      ghost var grown, was, all, v := {this} + table.Repr(), value, Repr, SlotValue(slot);
      PutNested(items, was, own, all, name, slot, grown);
      SameNested(items, was, own, all, name);
      value := Put(was, name, v);
      Repr := all + grown + SlotRepr(slot);
      assert Nested(table.Contents(), value, grown, Repr, NOTHING);
    }

    method SetMember(name: CString, slot: Slot, attached: bool) returns (ok: bool)
      requires Valid() && (attached || SlotValid(slot)) && Brought(slot, attached) !! Repr && table.count < MAX_ITEMS
      modifies this, table.Repr()
      ensures Valid() && fresh(Repr - old(Repr) - old(Brought(slot, attached)))
      ensures ok == !attached
      ensures value == if ok then Put(old(value), name, old(SlotValue(slot))) else old(value)
      ensures !ok ==> Repr == old(Repr)
    {
      hide Nested, Put, Consistent, ValidCapacity;
      ghost var items, own := table.Contents(), {this} + table.Repr();
      ok := table.SetValue(name, slot, attached);
      if ok {
        Adopt(items, own, name, slot);
      } else {
        assert table.Valid() && items == table.Contents() && own == {this} + table.Repr();
      }
    }

    /** `json_object_add` of an object under a name that is absent. */
    method AddMember(name: CString, slot: Slot)
      requires Valid() && SlotValid(slot) && SlotRepr(slot) !! Repr && table.count < MAX_ITEMS
      requires !HasName(table.Contents(), name)
      modifies this, table.Repr()
      ensures Valid() && fresh(Repr - old(Repr) - SlotRepr(slot))
      ensures value == old(value) + [Entry(name, SlotValue(slot))]
    {
      hide Nested, Consistent, ValidCapacity;
      ghost var items, own := table.Contents(), {this} + table.Repr();
      var ok := table.Add(name, slot);
      Adopt(items, own, name, slot);
    }

    /** The object of a member. */
    lemma SubHere(name: CString, n: ObjectNode)
      requires Valid() && Lookup(table.Contents(), name) == Some(Sub(n))
      ensures n.Valid() && n.Repr <= Repr
    {
      hide Nested, Lookup, Consistent, ValidCapacity;
      LookupIsIndex(table.Contents(), name);
      Isolate(table.Contents(), value, {this} + table.Repr(), Repr, IndexOf(table.Contents(), name));
    }

    /** `json_object_dotget_value`. */
    method DotGetValue(name: CString) returns (r: Option<Slot>)
      requires Valid()
      ensures r.Some? ==> SlotRepr(r.value) <= Repr
      ensures DotGet(Some(value), name) == if r.None? then None else Some(SlotValue(r.value))
      ensures r.Some? && r.value.Leaf? ==> DotGet(Some(value), name) == Some(r.value.leaf)
      decreases |name|
    {
      hide Nested, Lookup, HasName, Consistent, ValidCapacity, JsonObject.Contents, ObjectNode.Valid, DotPosition;
      var d := DotPosition(name);
      Footprint();
      var found := table.GetN(name, d);
      LookupHere(name[..d]);
      if d == |name| {
        assert name[..d] == name;
        return found;
      }
      match found
      case Some(Sub(n)) =>
        SubHere(name[..d], n);
        r := n.DotGetValue(name[d + 1..]);
      case _ =>
        NothingThere(name[d + 1..]);
        return None;
    }

    /**
     * `json_object_dotset_value`: changes the object the name leads to in place, making the objects on the way that
     * are not there; when it fails the tree is what it was.
     */
    method DotSetValue(name: CString, slot: Slot, attached: bool) returns (ok: bool)
      requires Valid() && (attached || SlotValid(slot)) && Brought(slot, attached) !! Repr && RoomAlong(value, name)
      modifies Repr
      ensures Valid() && fresh(Repr - old(Repr) - old(Brought(slot, attached)))
      ensures ok == DotSet(old(value), name, old(SlotValue(slot)), attached).Some?
      ensures value == AfterDotSet(old(value), name, old(SlotValue(slot)), attached)
      decreases |name|, 1
    {
      hide Nested, Put, DotSet, AfterDotSet, RoomAlong, Lookup, HasName, Consistent, ValidCapacity, JsonObject.Contents, ObjectNode.Valid;
      ghost var was, v := value, SlotValue(slot);
      RoomOnwards(value, name);
      Footprint();
      var d := DotPosition(name);
      if d == |name| {
        DotSetEnds(was, name, v, attached);
        ok := SetMember(name, slot, attached);
        return;
      }
      var head: CString := name[..d];
      var found := table.GetN(name, d);
      LookupHere(head);
      match found
      case Some(Sub(n)) =>
        DotSetDescends(was, name, v, attached, n.value);
        ok := SetBelow(n, head, name[d + 1..], slot, attached);
      case Some(_) =>
        DotSetStops(was, name, v, attached);
        return false;
      case None =>
        DotSetMakes(was, name, v, attached);
        ok := MakeBelow(head, name[d + 1..], slot, attached);
    }

    /** Makes the object of an absent member `head`; it is added once the value is in it. */
    method MakeBelow(head: CString, rest: CString, slot: Slot, attached: bool) returns (ok: bool)
      requires Valid() && !HasName(table.Contents(), head) && table.count < MAX_ITEMS && RoomAlong([], rest)
      requires (attached || SlotValid(slot)) && Brought(slot, attached) !! Repr
      modifies Repr
      ensures Valid() && fresh(Repr - old(Repr) - old(Brought(slot, attached)))
      ensures ok == DotSet([], rest, old(SlotValue(slot)), attached).Some?
      ensures value == if ok then old(value) + [Entry(head, Object(AfterDotSet([], rest, old(SlotValue(slot)), attached)))]
                       else old(value)
      decreases |rest|, 2
    {
      hide Nested, DotSet, AfterDotSet, RoomAlong, HasName, Consistent, ValidCapacity, JsonObject.Contents, ObjectNode.Valid;
      Footprint();
      ghost var all, given := Repr, Brought(slot, attached);
      var n := new ObjectNode();
      ok := n.DotSetValue(rest, slot, attached);
      ghost var below := n.Repr;
      assert fresh(below - given);
      if ok {
        AddMember(head, Sub(n));
        assert fresh(Repr - all - below);
        assert Repr - all - given <= (Repr - all - below) + (below - given);
      }
    }

    /** Goes on at the object of member `head`. */
    method SetBelow(n: ObjectNode, head: CString, rest: CString, slot: Slot, attached: bool) returns (ok: bool)
      requires Valid() && Lookup(table.Contents(), head) == Some(Sub(n)) && RoomAlong(n.value, rest)
      requires (attached || SlotValid(slot)) && Brought(slot, attached) !! Repr
      modifies Repr
      ensures Valid() && fresh(Repr - old(Repr) - old(Brought(slot, attached)))
      ensures ok == DotSet(old(n.value), rest, old(SlotValue(slot)), attached).Some?
      ensures value == Put(old(value), head, Object(AfterDotSet(old(n.value), rest, old(SlotValue(slot)), attached)))
      decreases |rest|, 2
    {
      hide Nested, Put, DotSet, AfterDotSet, RoomAlong, Lookup, HasName, Consistent, ValidCapacity;
      ghost var k, before, all := IndexOf(table.Contents(), head), n.Repr, Repr;
      LookupIsIndex(table.Contents(), head);
      SameNested(table.Contents(), value, {this} + table.Repr(), Repr, head);
      Isolate(table.Contents(), value, {this} + table.Repr(), Repr, k);
      ok := n.DotSetValue(rest, slot, attached);
      PutAt(value, k, head, Object(n.value));
      Readopt(n, k, before);
    }

    /** Takes the changed object of member `k` back in. */
    ghost method Readopt(n: ObjectNode, k: nat, before: set<object>)
      requires this in Repr && table in Repr && table.Repr() <= Repr && this !in table.Repr() && table.Valid()
      requires k < table.count && table.Contents()[k].value == Sub(n) && {this} + table.Repr() + before <= Repr
      requires Nested(table.Contents(), value, {this} + table.Repr() + before, Repr, k) && k < |value|
      requires n.Valid() && n.Repr !! {this} + table.Repr() && n.Repr * Repr <= before
      modifies this
      ensures Valid() && Repr == old(Repr) + n.Repr
      ensures value == old(value)[k := Entry(table.Contents()[k].name, Object(n.value))]
    {
      hide Nested;
      ghost var items, own, was, all := table.Contents(), {this} + table.Repr(), value, Repr;
      Rejoin(items, was, own, all, k, before);
      value := was[k := Entry(items[k].name, Object(n.value))];
      Repr := all + n.Repr;
      assert items == table.Contents() && own == {this} + table.Repr();
      assert Nested(items, value, own, Repr, NOTHING);
    }

    /** The object branch of `json_value_deep_copy`: an equal tree that shares nothing with this one. */
    method DeepCopy() returns (c: ObjectNode)
      requires Valid() && RoomEverywhere(Object(value))
      ensures c.Valid() && fresh(c.Repr) && c.value == value
      decreases Repr, 2
    {
      hide Nested, Consistent, ValidCapacity, RoomEverywhere;
      SameNested(table.Contents(), value, {this} + table.Repr(), Repr, []);
      c := new ObjectNode();
      for i := 0 to table.count
        invariant c.Valid() && fresh(c.Repr) && c.value == value[..i]
      {
        CopyMember(c, i);
      }
      assert value[..|value|] == value;
    }

    /** Member `i`, looked up by its name. */
    method MemberSlot(i: nat) returns (name: CString, slot: Slot)
      requires table.Valid() && i < table.count
      ensures table.Contents()[i] == Entry(name, slot)
    {
      hide Consistent, ValidCapacity, Lookup, HasName, Distinct;
      table.ContentsDistinct();
      LookupAt(table.Contents(), i);
      name := table.names[i];
      assert name == table.Contents()[i].name && name[..|name|] == name;
      var found := table.GetN(name, |name|);
      slot := found.value;
    }

    /** A copy of member `i`. */
    method CopyOf(i: nat) returns (key: CString, copy: Slot)
      requires Valid() && RoomEverywhere(Object(value)) && i < table.count && |value| == table.count
      ensures table.Contents()[i].name == key && value[i] == Entry(key, SlotValue(copy))
      ensures SlotValid(copy) && fresh(SlotRepr(copy))
      decreases Repr, 0
    {
      hide Nested, Consistent, ValidCapacity, RoomEverywhere, SlotValid;
      MemberFits(table.Contents(), value, {this} + table.Repr(), Repr, i);
      MemberHasRoom(value, i);
      var slot;
      key, slot := MemberSlot(i);
      copy := CopySlot(slot);
    }

    /** The copy has room for member `i`, and does not hold its name yet. */
    lemma CopyFits(c: ObjectNode, i: nat)
      requires Valid() && RoomEverywhere(Object(value)) && i < table.count && |value| == table.count
      requires c.Valid() && c.value == value[..i]
      ensures c.table.count < MAX_ITEMS && !HasName(c.table.Contents(), table.Contents()[i].name)
    {
      hide Nested, Consistent, ValidCapacity, RoomEverywhere, HasName, Distinct;
      MemberHasRoom(value, i);
      table.ContentsDistinct();
      AbsentYet(table.Contents(), value, {this} + table.Repr(), Repr, i, c.table.Contents(), c.value, {c} + c.table.Repr(), c.Repr);
    }

    /** Adds a copy of member `i` to the copy of the members before it. */
    method CopyMember(c: ObjectNode, i: nat)
      requires Valid() && RoomEverywhere(Object(value)) && i < table.count && |value| == table.count
      requires c.Valid() && c.Repr !! Repr && c.value == value[..i]
      modifies c.Repr
      ensures c.Valid() && fresh(c.Repr - old(c.Repr)) && c.value == value[..i + 1]
      decreases Repr, 1
    {
      hide Nested, Consistent, ValidCapacity, RoomEverywhere, HasName, Distinct, SlotValid, JsonObject.Contents, ObjectNode.Valid;
      Footprint();
      c.Footprint();
      CopyFits(c, i);
      ghost var v := value;
      assert v[..i + 1] == v[..i] + [v[i]];
      var key, copy := CopyOf(i);
      ghost var all, given := c.Repr, SlotRepr(copy);
      c.AddMember(key, copy);
      assert c.Repr - all <= (c.Repr - all - given) + given;
    }
  }

  /** `json_value_deep_copy`. */
  method CopySlot(slot: Slot) returns (copy: Slot)
    requires SlotValid(slot) && RoomEverywhere(SlotValue(slot))
    ensures SlotValid(copy) && fresh(SlotRepr(copy)) && SlotValue(copy) == old(SlotValue(slot))
    ensures slot.Leaf? ==> copy == slot && SlotValue(copy) == slot.leaf
    decreases SlotRepr(slot), 3
  {
    hide RoomEverywhere, Nested;
    match slot
    case Leaf(v) => copy := Leaf(v);
    case Sub(node) =>
      var c := node.DeepCopy();
      copy := Sub(c);
    case List(list) =>
      var c := list.DeepCopy();
      copy := List(c);
  }

  /** Items as members without names. */
  function Unnamed<V>(items: seq<V>): (entries: seq<Entry<V>>)
    ensures |entries| == |items| && forall i :: 0 <= i < |items| ==> entries[i] == Entry([], items[i])
  {
    seq(|items|, i requires 0 <= i < |items| => Entry([], items[i]))
  }

  class ListNode {
    var items: array<Slot>
    var count: nat
    ghost var Repr: set<object>
    ghost var value: seq<Json>

    ghost predicate Valid()
      reads this, Repr
      decreases Repr, 1
    {
      && this in Repr && items in Repr && count <= items.Length
      && Nested(Unnamed(items[..count]), Unnamed(value), {this, items}, Repr, NOTHING)
    }

    constructor ()
      ensures Valid() && fresh(Repr) && value == []
    {
      items := new Slot[0];
      count, value := 0, [];
      new;
      Repr := {this, items};
    }

    /** `json_array_resize`: the items move to a new array of the given capacity. */
    method Resize(capacity: nat)
      requires count <= items.Length && count <= capacity
      modifies this`items
      ensures fresh(items) && items.Length == capacity && items[..count] == old(items[..count])
    {
      var grown := new Slot[capacity];
      for i := 0 to count
        modifies grown
        invariant grown[..i] == items[..i]
      {
        grown[i] := items[i];
      }
      items := grown;
    }

    /** Takes a new last item in, once it is in the array. */
    ghost method Adopt(before: seq<Slot>, own: set<object>, slot: Slot)
      requires this in Repr && count <= items.Length && items[..count] == before + [slot]
      requires Nested(Unnamed(before), Unnamed(value), own, Repr, NOTHING)
      requires SlotValid(slot) && SlotRepr(slot) !! Repr + {this, items} && {this, items} * Repr <= own
      modifies this`Repr, this`value
      ensures Valid() && Repr == old(Repr) + {this, items} + SlotRepr(slot) && value == old(value) + [SlotValue(slot)]
    {
      hide Nested;
      ghost var was, all, v := value, Repr, SlotValue(slot);
      AppendNested(Unnamed(before), Unnamed(was), own, all, [], slot, {this, items});
      assert Unnamed(before + [slot]) == Unnamed(before) + [Entry([], slot)];
      assert Unnamed(was + [v]) == Unnamed(was) + [Entry([], v)];
      value := was + [v];
      Repr := all + {this, items} + SlotRepr(slot);
      assert Nested(Unnamed(items[..count]), Unnamed(value), {this, items}, Repr, NOTHING);
    }

    /** Stores a new last item, in an array of twice the capacity when there is no room left. */
    method Store(slot: Slot)
      requires count <= items.Length
      modifies this`items, this`count, items
      ensures (items == old(items) || fresh(items)) && count == old(count) + 1 <= items.Length
      ensures items[..count] == old(items[..count]) + [slot]
    {
      if count >= items.Length {
        Resize(if items.Length * 2 > STARTING_CAPACITY then items.Length * 2 else STARTING_CAPACITY);
      }
      items[count] := slot;
      count := count + 1;
    }

    /** `json_array_add`. */
    method Add(slot: Slot)
      requires Valid() && SlotValid(slot) && SlotRepr(slot) !! Repr
      modifies this, items
      ensures Valid() && fresh(Repr - old(Repr) - SlotRepr(slot))
      ensures value == old(value) + [SlotValue(slot)]
    {
      hide Nested, Unnamed;
      ghost var before, own := items[..count], {this, items};
      Store(slot);
      Adopt(before, own, slot);
    }

    /** The array branch of `json_value_deep_copy`. */
    method DeepCopy() returns (c: ListNode)
      requires Valid() && RoomEverywhere(Array(value))
      ensures c.Valid() && fresh(c.Repr) && c.value == value
      decreases Repr, 1
    {
      hide Nested, RoomEverywhere;
      SameNested(Unnamed(items[..count]), Unnamed(value), {this, items}, Repr, []);
      c := new ListNode();
      for i := 0 to count
        invariant c.Valid() && fresh(c.Repr) && c.value == value[..i]
      {
        CopyItem(c, i);
      }
      assert value[..|value|] == value;
    }

    /** Adds a copy of item `i` to the copy of the items before it. */
    method CopyItem(c: ListNode, i: nat)
      requires Valid() && RoomEverywhere(Array(value)) && i < count && |value| == count
      requires c.Valid() && c.Repr !! Repr && c.value == value[..i]
      modifies c, c.items
      ensures c.Valid() && fresh(c.Repr - old(c.Repr)) && c.value == value[..i + 1]
      decreases Repr, 0
    {
      hide Nested, RoomEverywhere, SlotValid;
      MemberFits(Unnamed(items[..count]), Unnamed(value), {this, items}, Repr, i);
      ItemHasRoom(value, i);
      assert value[..i + 1] == value[..i] + [value[i]];
      var copy := CopySlot(items[i]);
      ghost var all, given := c.Repr, SlotRepr(copy);
      assert fresh(given);
      c.Add(copy);
      assert fresh(c.Repr - all - given);
      assert c.Repr - all <= (c.Repr - all - given) + given;
    }
  }

  /** There is room for one more member in every object of the tree. */
  ghost predicate RoomEverywhere(v: Json) {
    match v
    case Object(members) => |members| < MAX_ITEMS && forall i :: 0 <= i < |members| ==> RoomEverywhere(members[i].value)
    case Array(items) => forall i :: 0 <= i < |items| ==> RoomEverywhere(items[i])
    case _ => true
  }

  lemma MemberHasRoom(members: seq<Entry<Json>>, i: nat)
    requires RoomEverywhere(Object(members)) && i < |members|
    ensures |members| < MAX_ITEMS && RoomEverywhere(members[i].value)
  {
  }

  lemma ItemHasRoom(items: seq<Json>, i: nat)
    requires RoomEverywhere(Array(items)) && i < |items|
    ensures RoomEverywhere(items[i])
  {
  }

  lemma MemberFits(items: seq<Entry<Slot>>, value: seq<Entry<Json>>, own: set<object>, all: set<object>, i: nat)
    requires Nested(items, value, own, all, NOTHING) && i < |items|
    ensures |items| == |value|
    ensures var slot := items[i].value;
            SlotValid(slot) && value[i] == Entry(items[i].name, SlotValue(slot)) && SlotNode(slot) <= all - own && SlotRepr(slot) <= all - own
  {
  }

  /** The name of member `i` is not among the members before it. */
  lemma AbsentYet(items: seq<Entry<Slot>>, value: seq<Entry<Json>>, own: set<object>, all: set<object>, i: nat,
                  copied: seq<Entry<Slot>>, copy: seq<Entry<Json>>, copyOwn: set<object>, copyAll: set<object>)
    requires Distinct(items) && Nested(items, value, own, all, NOTHING) && i < |items|
    requires Nested(copied, copy, copyOwn, copyAll, NOTHING) && copy == value[..i]
    ensures !HasName(copied, items[i].name) && |copied| == i
  {
  }

  lemma LookupIsIndex(items: seq<Entry<Slot>>, name: CString)
    ensures Lookup(items, name).Some? ==> var k := IndexOf(items, name);
              0 <= k < |items| && items[k].name == name && Lookup(items, name) == Some(items[k].value)
  {
  }

  /** The members once `DotSet` has been tried. */
  function AfterDotSet(members: seq<Entry<Json>>, name: CString, value: Json, attached: bool): seq<Entry<Json>> {
    match DotSet(members, name, value, attached)
    case None => members
    case Some(after) => after
  }

  lemma PutAt(value: seq<Entry<Json>>, k: int, head: CString, v: Json)
    requires k == IndexOf(value, head)
    ensures k >= 0 ==> Put(value, head, v) == value[k := Entry(head, v)]
    ensures k >= 0 && value[k].value == v ==> Put(value, head, v) == value
  {
  }

  /** `DotSet` on a name without a dot. */
  lemma DotSetEnds(members: seq<Entry<Json>>, name: CString, value: Json, attached: bool)
    requires DotPosition(name) == |name|
    ensures DotSet(members, name, value, attached).Some? <==> !attached
    ensures AfterDotSet(members, name, value, attached) == if attached then members else Put(members, name, value)
  {
  }

  /** One level of `DotSet`, by what the first component leads to: nothing, */
  lemma DotSetMakes(members: seq<Entry<Json>>, name: CString, value: Json, attached: bool)
    requires var d := DotPosition(name); d < |name| && Lookup(members, name[..d]).None?
    ensures var d := DotPosition(name);
            var head, rest, ok := name[..d], name[d + 1..], DotSet(members, name, value, attached).Some?;
            && ok == DotSet([], rest, value, attached).Some?
            && AfterDotSet(members, name, value, attached)
               == if ok then members + [Entry(head, Object(AfterDotSet([], rest, value, attached)))] else members
  {
  }

  /** an object, */
  lemma DotSetDescends(members: seq<Entry<Json>>, name: CString, value: Json, attached: bool, inner: seq<Entry<Json>>)
    requires var d := DotPosition(name); d < |name| && Lookup(members, name[..d]) == Some(Object(inner))
    ensures var d := DotPosition(name);
            var head, rest := name[..d], name[d + 1..];
            && DotSet(members, name, value, attached).Some? == DotSet(inner, rest, value, attached).Some?
            && AfterDotSet(members, name, value, attached) == Put(members, head, Object(AfterDotSet(inner, rest, value, attached)))
  {
    var head := name[..DotPosition(name)];
    PutAt(members, IndexOf(members, head), head, Object(inner));
  }

  /** or anything else. */
  lemma DotSetStops(members: seq<Entry<Json>>, name: CString, value: Json, attached: bool)
    requires var d := DotPosition(name); d < |name| && var found := Lookup(members, name[..d]); found.Some? && !found.value.Object?
    ensures DotSet(members, name, value, attached).None? && AfterDotSet(members, name, value, attached) == members
  {
  }

  /** There is room for one more member in every object on the way. */
  predicate RoomAlong(members: seq<Entry<Json>>, name: CString)
    decreases |name|
  {
    var d := DotPosition(name);
    && |members| < MAX_ITEMS
    && (d < |name| ==> RoomAlong(Inner(members, name[..d]), name[d + 1..]))
  }

  lemma RoomOnwards(members: seq<Entry<Json>>, name: CString)
    requires RoomAlong(members, name)
    ensures |members| < MAX_ITEMS
    ensures var d, found := DotPosition(name), Lookup(members, name[..DotPosition(name)]);
            d < |name| ==>
              && (found.None? ==> RoomAlong([], name[d + 1..]))
              && (found.Some? && found.value.Object? ==> RoomAlong(found.value.members, name[d + 1..]))
  {
  }

  lemma {:induction false} NothingThere(name: CString)
    ensures DotGet(None, name) == None
    decreases |name|
  {
    var d := DotPosition(name);
    if d < |name| {
      NothingThere(name[d + 1..]);
    }
  }

  lemma SameNested(items: seq<Entry<Slot>>, value: seq<Entry<Json>>, own: set<object>, all: set<object>, name: CString)
    requires Nested(items, value, own, all, NOTHING)
    ensures IndexOf(items, name) == IndexOf(value, name) && |items| == |value|
  {
    SameIndex(items, value, name);
  }
}
