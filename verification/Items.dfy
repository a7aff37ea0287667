/**
 The members of a JSON object as an ordered list of distinct names, and the finite map it stands for.
 These functions are the specification of the hash table.
 */
module Items {
  import opened Bytes

  datatype Entry<+V> = Entry(name: CString, value: V)

  ghost predicate Distinct<V>(items: seq<Entry<V>>) {
    forall i, j :: 0 <= i < j < |items| ==> items[i].name != items[j].name
  }

  predicate HasName<V>(items: seq<Entry<V>>, name: CString) {
    exists i :: 0 <= i < |items| && items[i].name == name
  }

  /** The position of a name, or -1. */
  function IndexOf<V>(items: seq<Entry<V>>, name: CString): (r: int)
    ensures -1 <= r < |items|
    ensures r >= 0 ==> items[r].name == name
    ensures r < 0 <==> !HasName(items, name)
  {
    if items == [] then -1
    else if items[|items| - 1].name == name then |items| - 1
    else
      var front := items[..|items| - 1];
      assert HasName(items, name) ==> HasName(front, name) by {
        if i :| 0 <= i < |items| && items[i].name == name { assert front[i].name == name; }
      }
      IndexOf(front, name)
  }

  function Lookup<V>(items: seq<Entry<V>>, name: CString): Option<V> {
    var i := IndexOf(items, name);
    if i < 0 then None else Some(items[i].value)
  }

  /** Overwrites the value of a present name, appends an absent one. */
  function Put<V>(items: seq<Entry<V>>, name: CString, value: V): seq<Entry<V>> {
    var i := IndexOf(items, name);
    if i < 0 then items + [Entry(name, value)] else items[i := Entry(name, value)]
  }

  /** Takes item `i` out by moving the last item into its place. */
  function SwapOut<T>(items: seq<T>, i: nat): seq<T>
    requires i < |items|
  {
    items[i := items[|items| - 1]][..|items| - 1]
  }

  function Without<V>(items: seq<Entry<V>>, name: CString): seq<Entry<V>> {
    var i := IndexOf(items, name);
    if i < 0 then items else SwapOut(items, i)
  }

  /** The finite map an item list stands for. */
  ghost function AsMap<V>(items: seq<Entry<V>>): map<CString, V> {
    map e | e in items :: e.name := Lookup(items, e.name).value
  }

  lemma LookupAt<V>(items: seq<Entry<V>>, i: nat)
    requires Distinct(items) && i < |items|
    ensures IndexOf(items, items[i].name) == i
    ensures Lookup(items, items[i].name) == Some(items[i].value)
  {
  }

  lemma PrefixLacks<V>(items: seq<Entry<V>>, i: nat)
    requires Distinct(items) && i < |items|
    ensures !HasName(items[..i], items[i].name)
    ensures items[..i + 1] == items[..i] + [items[i]]
  {
  }

  lemma AsMapIsLookup<V>(items: seq<Entry<V>>, name: CString)
    requires Distinct(items)
    ensures name in AsMap(items) <==> HasName(items, name)
    ensures Lookup(items, name) == if name in AsMap(items) then Some(AsMap(items)[name]) else None
  {
  }

  /** The calls a client makes on an object, and what they answer. */
  datatype Call<+V> = Add(name: CString, value: V) | Set(name: CString, value: V) | Remove(name: CString) | Get(name: CString)

  datatype Answer<+V> = Status(ok: bool) | Found(value: Option<V>)

  function Apply<V>(items: seq<Entry<V>>, call: Call<V>): (seq<Entry<V>>, Answer<V>) {
    match call
    case Add(n, v) => if HasName(items, n) then (items, Status(false)) else (items + [Entry(n, v)], Status(true))
    case Set(n, v) => (Put(items, n, v), Status(true))
    case Remove(n) => (Without(items, n), Status(HasName(items, n)))
    case Get(n) => (items, Found(Lookup(items, n)))
  }

  /** The same calls on a finite map without order. */
  function ApplyMap<V>(m: map<CString, V>, call: Call<V>): (map<CString, V>, Answer<V>) {
    match call
    case Add(n, v) => if n in m then (m, Status(false)) else (m[n := v], Status(true))
    case Set(n, v) => (m[n := v], Status(true))
    case Remove(n) => (m - {n}, Status(n in m))
    case Get(n) => (m, Found(if n in m then Some(m[n]) else None))
  }

  function Run<V>(items: seq<Entry<V>>, calls: seq<Call<V>>): (seq<Entry<V>>, seq<Answer<V>>)
    decreases |calls|
  {
    if calls == [] then (items, [])
    else
      var (next, a) := Apply(items, calls[0]);
      var (end, rest) := Run(next, calls[1..]);
      (end, [a] + rest)
  }

  function RunMap<V>(m: map<CString, V>, calls: seq<Call<V>>): (map<CString, V>, seq<Answer<V>>)
    decreases |calls|
  {
    if calls == [] then (m, [])
    else
      var (next, a) := ApplyMap(m, calls[0]);
      var (end, rest) := RunMap(next, calls[1..]);
      (end, [a] + rest)
  }

  lemma LookupAfterPut<V>(items: seq<Entry<V>>, name: CString, value: V, n: CString)
    requires Distinct(items)
    ensures Distinct(Put(items, name, value))
    ensures Lookup(Put(items, name, value), n) == if n == name then Some(value) else Lookup(items, n)
  {
    var r := Put(items, name, value);
    var i := IndexOf(items, n);
    if n == name {
      LookupAt(r, if i < 0 then |items| else i);
    } else if i >= 0 {
      assert r[i].name == n;
      LookupAt(r, i);
    } else {
      assert forall j :: 0 <= j < |r| ==> r[j].name == name || (j < |items| && r[j].name == items[j].name);
      assert !HasName(r, n);
    }
  }

  lemma LookupAfterWithout<V>(items: seq<Entry<V>>, name: CString, n: CString)
    requires Distinct(items)
    ensures Distinct(Without(items, name))
    ensures Lookup(Without(items, name), n) == if n == name then None else Lookup(items, n)
  {
    var r := Without(items, name);
    var k := IndexOf(items, name);
    var i := IndexOf(items, n);
    if i >= 0 && n != name {
      assert r[if k >= 0 && i == |items| - 1 then k else i].name == n;
    }
    if j :| 0 <= j < |r| && r[j].name == n {
      LookupAt(r, j);
      LookupAt(items, if j == k then |items| - 1 else j);
    }
  }

  lemma PutIsUpdate<V>(items: seq<Entry<V>>, name: CString, value: V)
    requires Distinct(items)
    ensures Distinct(Put(items, name, value))
    ensures AsMap(Put(items, name, value)) == AsMap(items)[name := value]
  {
    var r := Put(items, name, value);
    LookupAfterPut(items, name, value, name);
    forall n: CString
      ensures n in AsMap(r) <==> n == name || n in AsMap(items)
      ensures n in AsMap(r) ==> AsMap(r)[n] == if n == name then value else AsMap(items)[n]
    {
      LookupAfterPut(items, name, value, n);
      AsMapIsLookup(items, n);
      AsMapIsLookup(r, n);
    }
  }

  lemma WithoutIsSubtraction<V>(items: seq<Entry<V>>, name: CString)
    requires Distinct(items)
    ensures Distinct(Without(items, name))
    ensures AsMap(Without(items, name)) == AsMap(items) - {name}
  {
    hide Without, Lookup;
    var r := Without(items, name);
    LookupAfterWithout(items, name, name);
    forall n: CString
      ensures n in AsMap(r) <==> n != name && n in AsMap(items)
      ensures n in AsMap(r) ==> AsMap(r)[n] == AsMap(items)[n]
    {
      LookupAfterWithout(items, name, n);
      AsMapIsLookup(items, n);
      AsMapIsLookup(r, n);
    }
  }

  lemma ApplyRefinesMap<V>(items: seq<Entry<V>>, call: Call<V>)
    requires Distinct(items)
    ensures Distinct(Apply(items, call).0)
    ensures (AsMap(Apply(items, call).0), Apply(items, call).1) == ApplyMap(AsMap(items), call)
  {
    AsMapIsLookup(items, call.name);
    match call
    case Add(n, v) => PutIsUpdate(items, n, v);
    case Set(n, v) => PutIsUpdate(items, n, v);
    case Remove(n) => WithoutIsSubtraction(items, n);
    case Get(n) =>
  }

  /** Any sequence of calls answers as a finite map would and ends in the same map, names staying distinct. */
  lemma {:induction false} RunRefinesMap<V>(items: seq<Entry<V>>, calls: seq<Call<V>>)
    requires Distinct(items)
    ensures Distinct(Run(items, calls).0)
    ensures (AsMap(Run(items, calls).0), Run(items, calls).1) == RunMap(AsMap(items), calls)
    decreases |calls|
  {
    if calls != [] {
      ApplyRefinesMap(items, calls[0]);
      RunRefinesMap(Apply(items, calls[0]).0, calls[1..]);
    }
  }

  /** The names in use. */
  ghost function Names<V>(items: seq<Entry<V>>): set<CString> {
    set e | e in items :: e.name
  }

  lemma NamesAreLookups<V>(items: seq<Entry<V>>, n: CString)
    ensures n in Names(items) <==> HasName(items, n)
    ensures n in Names(items) ==> Lookup(items, n).Some?
  {
  }

  lemma {:induction false} DistinctNames<V>(items: seq<Entry<V>>)
    requires Distinct(items)
    ensures |Names(items)| == |items|
  {
    if items != [] {
      var front, last := items[..|items| - 1], items[|items| - 1];
      DistinctNames(front);
      assert items == front + [last];
      assert Names(items) == Names(front) + {last.name};
    }
  }

  lemma SubsetOfSameSize(s: set<CString>, t: set<CString>)
    requires s <= t && |t| <= |s|
    ensures s == t
  {
    assert |t - s| == |t| - |s|;
  }

  /** If every name of `x` occurs in `y`, then `y` has at least as many members. */
  lemma FewerNames<V>(x: seq<Entry<V>>, y: seq<Entry<V>>)
    requires Distinct(x) && Distinct(y)
    requires forall i :: 0 <= i < |x| ==> HasName(y, x[i].name)
    ensures |x| <= |y|
  {
    DistinctNames(x);
    DistinctNames(y);
    forall n | n in Names(x)
      ensures n in Names(y)
    {
      NamesAreLookups(x, n);
      NamesAreLookups(y, n);
      var i := IndexOf(x, n);
    }
    if |Names(x)| > |Names(y)| {
      SubsetOfSameSize(Names(x), Names(y));
    }
  }
}
