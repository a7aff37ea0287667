/** The hash table behind a JSON object: dense item arrays indexed by an open-addressing cell array. */
module HashTable {
  import opened Bytes
  import opened CellLayout
  import opened Items

  const STARTING_CAPACITY := 16

  function Pow2(k: nat): (p: nat)
    ensures 1 <= p
  {
    if k == 0 then 1 else 2 * Pow2(k - 1)
  }

  /** Cell counters are 32-bit, so 2^31 is the largest capacity whose cells they can walk. */
  const MAX_LOG := 31

  /** Either no cells yet, or a power of two from 16 up. */
  ghost predicate ValidCapacity(capacity: nat) {
    capacity == 0 || exists k :: 4 <= k <= MAX_LOG && capacity == Pow2(k)
  }

  /** `(unsigned int)(capacity * 0.7f)`: the float nearest 0.7 is 11744051 / 2^24, and its product with a power of two is exact. */
  function ItemCapacity(capacity: nat): (items: nat)
    ensures items <= capacity && (0 < capacity ==> items < capacity)
  {
    capacity * 11744051 / 0x100_0000
  }

  const MAX_ITEMS := ItemCapacity(0x8000_0000)

  function Grown(capacity: nat): nat {
    if capacity * 2 > STARTING_CAPACITY then capacity * 2 else STARTING_CAPACITY
  }

  lemma {:induction false} Pow2Grows(j: nat, k: nat)
    requires j <= k
    ensures Pow2(j) <= Pow2(k)
  {
    if j < k {
      Pow2Grows(j, k - 1);
    }
  }

  lemma Pow2Top()
    ensures Pow2(4) == 16 && Pow2(24) == 0x100_0000 && Pow2(MAX_LOG) == 0x8000_0000
  {
    assert Pow2(8) == 0x100;
    assert Pow2(16) == 0x1_0000;
    assert Pow2(24) == 0x100_0000;
  }

  /** Growing a table that has not reached the last capacity gives a valid capacity with strictly more room for items. */
  lemma GrowthMakesRoom(capacity: nat)
    requires ValidCapacity(capacity) && ItemCapacity(capacity) < MAX_ITEMS
    ensures ValidCapacity(Grown(capacity)) && ItemCapacity(capacity) < ItemCapacity(Grown(capacity))
    ensures Grown(capacity) == if capacity == 0 then 16 else 2 * capacity
  {
    Pow2Top();
    if capacity > 0 {
      var k :| 4 <= k <= MAX_LOG && capacity == Pow2(k);
      Pow2Grows(4, k);
      assert Pow2(k + 1) == 2 * capacity;
    }
  }

  /** Seven tenths of the cells may be taken, rounded down. */
  lemma LoadFactor(k: nat)
    requires 4 <= k <= 24
    ensures ItemCapacity(Pow2(k)) == Pow2(k) * 7 / 10
  {
    var c := Pow2(k);
    Pow2Top();
    Pow2Grows(k, 24);
    NoFactorOfTen(k);
    hide Pow2;
    SevenTenths(c, c * 7 / 10, c * 7 % 10);
  }

  lemma SevenTenths(c: nat, q: nat, r: nat)
    requires c <= 0x100_0000 && 7 * c == 10 * q + r && 1 < r < 10
    ensures c * 11744051 / 0x100_0000 == q
  {
    assert 10 * (c * 11744051) == (10 * q + r) * 0x100_0000 - 2 * c;
    assert q * 0x100_0000 <= c * 11744051 < (q + 1) * 0x100_0000;
  }

  lemma {:induction false} NoFactorOfTen(k: nat)
    requires 1 <= k
    ensures 1 < Pow2(k) * 7 % 10
    ensures Pow2(k) % 10 == 2 || Pow2(k) % 10 == 4 || Pow2(k) % 10 == 6 || Pow2(k) % 10 == 8
  {
    if k > 1 {
      NoFactorOfTen(k - 1);
      TwiceModTen(Pow2(k - 1));
    }
  }

  lemma TwiceModTen(x: nat)
    requires x % 10 == 2 || x % 10 == 4 || x % 10 == 6 || x % 10 == 8
    ensures var y := 2 * x; (y % 10 == 2 || y % 10 == 4 || y % 10 == 6 || y % 10 == 8) && 1 < y * 7 % 10
  {
    assert 2 * x == 10 * (2 * (x / 10)) + 2 * (x % 10);
  }

  function HashFrom(hash: nat, name: seq<byte>): nat
    decreases |name|
  {
    if name == [] || name[0] == NUL then hash
    else HashFrom((hash * 33 + name[0]) % 0x1_0000_0000_0000_0000, name[1..])
  }

  function Hash(name: seq<byte>): nat {
    HashFrom(5381, name)
  }

  /** Each character takes the hash on by one round, in 64 bits; the hash of no characters is 5381. */
  lemma HashAppends(name: CString, c: byte)
    requires c != NUL
    ensures Hash([]) == 5381 && Hash(name + [c]) == (Hash(name) * 33 + c) % 0x1_0000_0000_0000_0000
  {
    HashFromAppends(5381, name, c);
  }

  lemma {:induction false} HashFromAppends(hash: nat, name: CString, c: byte)
    requires c != NUL
    ensures HashFrom(hash, name + [c]) == (HashFrom(hash, name) * 33 + c) % 0x1_0000_0000_0000_0000
    decreases |name|
  {
    if name == [] {
      assert name + [c] == [c] && [c][1..] == [];
    } else {
      assert name[0] in name && (name + [c])[1..] == name[1..] + [c];
      HashFromAppends((hash * 33 + name[0]) % 0x1_0000_0000_0000_0000, name[1..], c);
    }
  }

  method HashString(name: seq<byte>, n: nat) returns (hash: nat)
    requires n <= |name|
    ensures hash == Hash(name[..n])
  {
    hash := 5381;
    for i := 0 to n
      invariant HashFrom(hash, name[i..n]) == Hash(name[..n])
    {
      var c := name[i];
      if c == NUL {
        break;
      }
      assert name[i..n][1..] == name[i + 1..n];
      hash := (hash * 33 + c) % 0x1_0000_0000_0000_0000;
    }
  }

  /** The home cell of every item. */
  function Homes(hashes: seq<int>, capacity: nat): (h: seq<int>)
    requires 0 < capacity
    ensures |h| == |hashes| && forall m :: 0 <= m < |h| ==> h[m] == Home(hashes[m], capacity)
  {
    seq(|hashes|, m requires 0 <= m < |hashes| => Home(hashes[m], capacity))
  }

  function Zip<V>(names: seq<CString>, values: seq<V>): (items: seq<Entry<V>>)
    requires |names| == |values|
    ensures |items| == |names| && forall m :: 0 <= m < |items| ==> items[m] == Entry(names[m], values[m])
  {
    seq(|names|, m requires 0 <= m < |names| => Entry(names[m], values[m]))
  }

  /** Overwriting item `i` of the first `n` with the last of them takes it out of all but the last. */
  lemma MovedLast<T>(full: seq<T>, n: nat, i: nat)
    requires i < n <= |full|
    ensures full[i := full[n - 1]][..n - 1] == SwapOut(full[..n], i)
  {
  }

  lemma SwapOutZip<V>(names: seq<CString>, values: seq<V>, i: nat)
    requires |names| == |values| && i < |names|
    ensures |SwapOut(names, i)| == |SwapOut(values, i)|
    ensures Zip(SwapOut(names, i), SwapOut(values, i)) == SwapOut(Zip(names, values), i)
  {
  }

  /** The cells from `home` up to `ix` are occupied by items of other names. */
  ghost predicate Passed(cells: seq<int>, names: seq<CString>, home: int, ix: int, key: CString) {
    forall c :: 0 <= c < |cells| && OnPath(c, home, ix) ==> 0 <= cells[c] < |names| && names[cells[c]] != key
  }

  /** What ties cells, positions, hashes and names of a table together. */
  ghost predicate Consistent(cells: seq<int>, at: seq<int>, hashes: seq<int>, names: seq<CString>) {
    && |at| == |hashes| == |names|
    && (forall m :: 0 <= m < |names| ==> hashes[m] == Hash(names[m]))
    && (forall m, k :: 0 <= m < k < |names| ==> names[m] != names[k])
    && (|cells| == 0 ==> |names| == 0)
    && (|cells| > 0 ==> Placed(cells, at, Homes(hashes, |cells|)))
  }

  lemma NothingIsConsistent(cells: seq<int>)
    requires forall c :: 0 <= c < |cells| ==> cells[c] == EMPTY
    ensures Consistent(cells, [], [], [])
  {
  }

  /** A probe that meets an empty cell before the name has seen enough: the name is absent. */
  lemma ProbeStops(cells: seq<int>, at: seq<int>, hashes: seq<int>, names: seq<CString>, ix: int, key: CString)
    requires Consistent(cells, at, hashes, names)
    requires 0 <= ix < |cells| && cells[ix] == EMPTY && Passed(cells, names, Home(Hash(key), |cells|), ix, key)
    ensures key !in names
  {
  }

  lemma FreeCell(cells: seq<int>, at: seq<int>, hashes: seq<int>, names: seq<CString>) returns (free: nat)
    requires Consistent(cells, at, hashes, names) && |names| < |cells|
    ensures free < |cells| && cells[free] == EMPTY
  {
    free := EmptyCellExists(cells, at);
  }

  lemma OccupiedCell(cells: seq<int>, at: seq<int>, hashes: seq<int>, names: seq<CString>, c: nat)
    requires Consistent(cells, at, hashes, names)
    requires c < |cells| && cells[c] != EMPTY
    ensures 0 <= cells[c] < |names| && hashes[cells[c]] == Hash(names[cells[c]]) && at[cells[c]] == c
  {
  }

  lemma ItemCell(cells: seq<int>, at: seq<int>, hashes: seq<int>, names: seq<CString>, m: nat)
    requires Consistent(cells, at, hashes, names) && m < |names|
    ensures 0 <= at[m] < |cells| && cells[at[m]] == m
  {
  }

  /** One probe step over a cell that belongs to another name. */
  lemma ProbePasses(cells: seq<int>, at: seq<int>, hashes: seq<int>, names: seq<CString>, home: int, ix: int, free: int, key: CString)
    requires Consistent(cells, at, hashes, names)
    requires 0 <= home < |cells| && 0 <= ix < |cells| && cells[ix] != EMPTY
    requires Passed(cells, names, home, ix, key)
    requires 0 <= free < |cells| && cells[free] == EMPTY && !OnPath(free, home, ix)
    requires names[cells[ix]] != key
    ensures Wrap(ix + 1, |cells|) != home
    ensures Passed(cells, names, home, Wrap(ix + 1, |cells|), key)
    ensures !OnPath(free, home, Wrap(ix + 1, |cells|))
  {
  }

  lemma InsertKeepsConsistent(cells: seq<int>, at: seq<int>, hashes: seq<int>, names: seq<CString>, ix: int, name: CString)
    requires Consistent(cells, at, hashes, names) && name !in names
    requires 0 <= ix < |cells| && cells[ix] == EMPTY
    requires forall c :: 0 <= c < |cells| && OnPath(c, Home(Hash(name), |cells|), ix) ==> cells[c] != EMPTY
    ensures Consistent(cells[ix := |at|], at + [ix], hashes + [Hash(name)], names + [name])
  {
    hide Placed;
    var home := Home(Hash(name), |cells|);
    InsertKeepsPlaced(cells, at, Homes(hashes, |cells|), home, ix);
    assert Homes(hashes + [Hash(name)], |cells|) == Homes(hashes, |cells|) + [home];
  }

  /** A table in the middle of a removal: as `Consistent`, but without the cell `hole` and scanned up to `last`. */
  ghost predicate Loosened(cells: seq<int>, at: seq<int>, hashes: seq<int>, names: seq<CString>, hole: int, last: int) {
    && 0 < |cells| && |at| == |hashes| == |names|
    && (forall m :: 0 <= m < |names| ==> hashes[m] == Hash(names[m]))
    && (forall m, k :: 0 <= m < k < |names| ==> names[m] != names[k])
    && Shifting(cells, at, Homes(hashes, |cells|), hole, last)
  }

  lemma SwapLoosens(cells: seq<int>, at: seq<int>, hashes: seq<int>, names: seq<CString>, item: nat)
    requires Consistent(cells, at, hashes, names) && item < |names|
    requires 0 <= at[|names| - 1] < |cells|
    ensures var last := |names| - 1;
            Loosened(if item < last then cells[at[last] := item] else cells,
                     SwapOut(at, item), SwapOut(hashes, item), SwapOut(names, item), at[item], at[item])
  {
    hide Shifting, Placed;
    SwapStartsShifting(cells, at, Homes(hashes, |cells|), item);
    assert Homes(SwapOut(hashes, item), |cells|) == SwapOut(Homes(hashes, |cells|), item);
  }

  /** One step of the backward shift: the item after `last` moves into the hole unless its home lies between. */
  lemma ShiftStep(cells: seq<int>, at: seq<int>, hashes: seq<int>, names: seq<CString>, hole: int, last: int)
    requires Loosened(cells, at, hashes, names, hole, last)
    requires Wrap(last + 1, |cells|) != hole && cells[Wrap(last + 1, |cells|)] != EMPTY
    ensures var j := Wrap(last + 1, |cells|); var m := cells[j];
            && 0 <= m < |names|
            && if After(Home(hashes[m], |cells|), hole, j)
               then Loosened(cells, at, hashes, names, hole, j)
               else Loosened(cells[hole := m], at[m := hole], hashes, names, j, j)
  {
    var j := Wrap(last + 1, |cells|);
    var homes := Homes(hashes, |cells|);
    assert 0 <= cells[j] < |names|;
    hide Shifting, Placed;
    if After(homes[cells[j]], hole, j) {
      SkipKeepsShifting(cells, at, homes, hole, last);
    } else {
      MoveKeepsShifting(cells, at, homes, hole, last);
    }
  }

  lemma ShiftStops(cells: seq<int>, at: seq<int>, hashes: seq<int>, names: seq<CString>, hole: int, last: int)
    requires Loosened(cells, at, hashes, names, hole, last)
    requires Wrap(last + 1, |cells|) != hole && cells[Wrap(last + 1, |cells|)] == EMPTY
    ensures Consistent(cells[hole := EMPTY], at, hashes, names)
  {
    hide Placed;
    StopRestoresPlaced(cells, at, Homes(hashes, |cells|), hole, last);
  }

  lemma ScanStart(cell: int, free: int, capacity: nat)
    requires 0 <= cell < capacity && 0 <= free < capacity && free != cell
    ensures Wrap(cell, capacity) == cell && !After(free, cell, cell) && 0 < capacity - 1
  {
  }

  /** The scan moves one cell on; it meets the empty cell `free` before it comes back to where it started. */
  lemma ScanStep(cell: int, x: nat, i: int, free: int, capacity: nat)
    requires 0 <= cell < capacity && 0 <= i < capacity && 0 <= free < capacity && x < capacity - 1
    requires var j := Wrap(cell + x, capacity); (i == cell || After(i, cell, j)) && free != cell && !After(free, cell, j)
    ensures var j := Wrap(cell + x, capacity); var next := (j + 1) % capacity;
            && next == Wrap(j + 1, capacity) == Wrap(cell + x + 1, capacity)
            && next != i && After(next, cell, next) && (i == cell || After(i, cell, next))
            && (next != free ==> !After(free, cell, next) && x + 1 < capacity - 1)
  {
    WrapIsMod(Wrap(cell + x, capacity) + 1, capacity);
  }

  /** The condition under which the sources move an item: its home is not after the hole `i`, up to its cell `j`. */
  lemma AfterIsSource(k: int, i: int, j: int)
    requires i != j
    ensures After(k, i, j) <==> !((j > i && (k <= i || k > j)) || (j < i && k <= i && k > j))
  {
  }

  class JsonObject<V(0)> {
    var cells: array<int>
    var hashes: array<int>
    var names: array<CString>
    var values: array<V>
    var cellIxs: array<int>
    var count: nat
    var itemCapacity: nat
    var cellCapacity: nat

    ghost function Repr(): set<object>
      reads this
    {
      {this, cells, hashes, names, values, cellIxs}
    }

    ghost predicate Valid()
      reads this, Repr()
    {
      && Allocated()
      && Consistent(cells[..], cellIxs[..count], hashes[..count], names[..count])
    }

    ghost predicate Allocated()
      reads this, Repr()
    {
      && ValidCapacity(cellCapacity) && itemCapacity == ItemCapacity(cellCapacity)
      && cells.Length == cellCapacity
      && hashes.Length == names.Length == values.Length == cellIxs.Length == itemCapacity
      && count <= itemCapacity
      && cells != hashes && hashes != cellIxs && cells != cellIxs
      && names !in Indexes() && values !in Indexes() + {names}
    }

    ghost function Indexes(): set<object>
      reads this
    {
      {cells, hashes, cellIxs}
    }

    /** The members in order: the abstract value of the table. */
    function Contents(): (items: seq<Entry<V>>)
      requires Allocated()
      reads this, Repr()
      ensures |items| == count
    {
      Zip(names[..count], values[..count])
    }

    /** A valid table holds every name once. */
    lemma ContentsDistinct()
      requires Valid()
      ensures Distinct(Contents())
    {
    }

    constructor (capacity: nat)
      requires ValidCapacity(capacity)
      ensures Valid() && fresh(Repr())
      ensures Contents() == []
      ensures cellCapacity == capacity
    {
      hide Consistent, ValidCapacity;
      count := 0;
      cellCapacity := capacity;
      itemCapacity := ItemCapacity(capacity);
      cells := new int[capacity];
      hashes := new int[ItemCapacity(capacity)];
      names := new CString[ItemCapacity(capacity)];
      values := new V[ItemCapacity(capacity)];
      cellIxs := new int[ItemCapacity(capacity)];
      new;
      for i := 0 to capacity
        modifies cells
        invariant forall c :: 0 <= c < i ==> cells[c] == EMPTY
      {
        cells[i] := EMPTY;
      }
      assert cellIxs[..count] == [] && hashes[..count] == [] && names[..count] == [] && values[..count] == [];
      NothingIsConsistent(cells[..]);
    }

    /** Probes for a name: finds its cell, or else the free cell where it belongs. */
    method GetCellIx(key: CString, hash: nat) returns (ix: int, found: bool)
      requires Valid() && hash == Hash(key)
      ensures found == HasName(Contents(), key)
      ensures found ==> 0 <= ix < cellCapacity && 0 <= cells[ix] < count && names[cells[ix]] == key
      ensures !found && 0 < cellCapacity ==>
                0 <= ix < cellCapacity && cells[ix] == EMPTY
                && forall c :: 0 <= c < cellCapacity && OnPath(c, Home(hash, cellCapacity), ix) ==> cells[c] != EMPTY
    {
      hide Consistent;
      var home := if cellCapacity == 0 then 0 else Home(hash, cellCapacity);
      ghost var table, at, hs, ns := cells[..], cellIxs[..count], hashes[..count], names[..count];
      ghost var free := 0;
      if 0 < cellCapacity {
        free := FreeCell(table, at, hs, ns);
      }
      ix := home;
      for i := 0 to cellCapacity
        invariant ix == Wrap(home + i, cellCapacity)
        invariant i == cellCapacity ==> cellCapacity == 0
        invariant 0 < cellCapacity ==> !OnPath(free, home, ix) && Passed(table, ns, home, ix, key)
      {
        WrapIsMod(home + i, cellCapacity);
        ix := (home + i) % cellCapacity;
        var cell := cells[ix];
        if cell == EMPTY {
          ProbeStops(table, at, hs, ns, ix, key);
          return ix, false;
        }
        OccupiedCell(table, at, hs, ns, ix);
        if hash == hashes[cell] && names[cell] == key {
          assert Contents()[cell].name == key;
          return ix, true;
        }
        assert hs[cell] == hashes[cell] && ns[cell] == names[cell];
        ProbePasses(table, at, hs, ns, home, ix, free, key);
        ix := Wrap(home + i + 1, cellCapacity);
      }
      return EMPTY, false;
    }

    /** Stores a new last item in the free cell a probe found for it. */
    method Append(name: CString, value: V, hash: nat, ix: int)
      requires Valid() && count < itemCapacity && hash == Hash(name) && !HasName(Contents(), name)
      requires 0 <= ix < cellCapacity && cells[ix] == EMPTY
      requires forall c :: 0 <= c < cellCapacity && OnPath(c, Home(hash, cellCapacity), ix) ==> cells[c] != EMPTY
      modifies Repr()
      ensures Valid() && Repr() == old(Repr())
      ensures itemCapacity == old(itemCapacity) && cellCapacity == old(cellCapacity)
      ensures Contents() == old(Contents()) + [Entry(name, value)]
    {
      hide Consistent;
      ghost var n, table, hs, ns := count, cells[..], hashes[..count], names[..count];
      ghost var at, vs := cellIxs[..n], values[..n];
      assert forall m :: 0 <= m < n ==> Contents()[m].name == ns[m];
      InsertKeepsConsistent(table, at, hs, ns, ix, name);
      names[count] := name;
      cells[ix] := count;
      values[count] := value;
      cellIxs[count] := ix;
      hashes[count] := hash;
      count := count + 1;
      assert cells[..] == table[ix := n];
      assert cellIxs[..count] == at + [ix];
      assert hashes[..count] == hs + [hash];
      assert names[..count] == ns + [name];
      assert values[..count] == vs + [value];
    }

    /** Adds a new last member; a name that is present is refused. */
    method Add(name: CString, value: V) returns (ok: bool)
      requires Valid() && count < MAX_ITEMS
      modifies Repr()
      ensures Valid() && fresh(Repr() - old(Repr()))
      ensures ok == !HasName(old(Contents()), name)
      ensures Contents() == if ok then old(Contents()) + [Entry(name, value)] else old(Contents())
      ensures old(count) < old(itemCapacity) ==> Repr() == old(Repr()) && cellCapacity == old(cellCapacity)
      decreases if count >= itemCapacity then 2 else 0
    {
      hide Consistent, ValidCapacity, Zip, HasName;
      var hash := HashString(name, |name|);
      assert name[..|name|] == name;
      var cellIx, found := GetCellIx(name, hash);
      if found {
        return false;
      }
      if count >= itemCapacity {
        GrowAndRehash();
        cellIx, found := GetCellIx(name, hash);
      }
      Append(name, value, hash, cellIx);
      return true;
    }

    /** Moves all members, in order, into a table of twice the capacity. */
    method GrowAndRehash()
      requires Valid() && count == itemCapacity < MAX_ITEMS
      modifies Repr()
      ensures Valid() && fresh(Repr() - {this})
      ensures Contents() == old(Contents())
      ensures cellCapacity == Grown(old(cellCapacity)) && count == old(itemCapacity) < itemCapacity
      decreases 1, 1
    {
      hide Consistent;
      GrowthMakesRoom(cellCapacity);
      var grown := new JsonObject<V>(Grown(cellCapacity));
      CopyInto(grown);
      TakeOver(grown);
    }

    /** Adds all members, in order, to an empty table with room for them. */
    method CopyInto(grown: JsonObject<V>)
      requires Valid() && grown.Valid() && Repr() !! grown.Repr()
      requires grown.Contents() == [] && count < grown.itemCapacity && count < MAX_ITEMS
      modifies grown.Repr()
      ensures grown.Valid() && grown.Repr() == old(grown.Repr()) && grown.cellCapacity == old(grown.cellCapacity)
      ensures grown.Contents() == old(Contents())
      decreases 1, 0
    {
      hide Consistent;
      ContentsDistinct();
      ghost var items, space := Contents(), grown.Repr();
      for i := 0 to count
        modifies space
        invariant grown.Valid() && grown.Repr() == space && grown.cellCapacity == old(grown.cellCapacity)
        invariant grown.Contents() == items[..i]
      {
        var key, value := names[i], values[i];
        assert items[i] == Entry(key, value);
        PrefixLacks(items, i);
        var ok := grown.Add(key, value);
      }
      assert items[..count] == items;
    }

    /** `*object = new_object`: from here on this object owns the arrays of the other. */
    method TakeOver(other: JsonObject<V>)
      requires other.Valid() && this !in other.Repr()
      modifies this
      ensures Valid() && Repr() == {this} + (other.Repr() - {other})
      ensures Contents() == old(other.Contents())
      ensures count == other.count && itemCapacity == other.itemCapacity && cellCapacity == other.cellCapacity
    {
      hide Consistent, ValidCapacity, Zip;
      cells, hashes, names, values, cellIxs := other.cells, other.hashes, other.names, other.values, other.cellIxs;
      count, itemCapacity, cellCapacity := other.count, other.itemCapacity, other.cellCapacity;
    }

    /** Looks up the first `n` characters of `name`. */
    method GetN(name: CString, n: nat) returns (r: Option<V>)
      requires Valid() && n <= |name|
      ensures r == Lookup(Contents(), name[..n])
    {
      hide Consistent;
      var hash := HashString(name, n);
      var key: CString := name[..n];
      var cellIx, found := GetCellIx(key, hash);
      if !found {
        return None;
      }
      var itemIx := cells[cellIx];
      ContentsDistinct();
      LookupAt(Contents(), itemIx);
      return Some(values[itemIx]);
    }

    method Overwrite(ghost name: CString, itemIx: nat, value: V)
      requires Valid() && itemIx < count && names[itemIx] == name
      modifies values
      ensures Valid()
      ensures Contents() == Put(old(Contents()), name, value)
    {
      hide Consistent;
      ContentsDistinct();
      LookupAt(Contents(), itemIx);
      values[itemIx] := value;
      assert Contents() == old(Contents())[itemIx := Entry(name, value)];
    }

    /** Overwrites or appends; a value that already has a parent is refused. */
    method SetValue(name: CString, value: V, attached: bool) returns (ok: bool)
      requires Valid() && count < MAX_ITEMS
      modifies Repr()
      ensures Valid() && fresh(Repr() - old(Repr()))
      ensures ok == !attached
      ensures Contents() == if ok then Put(old(Contents()), name, value) else old(Contents())
      ensures !ok ==> Repr() == old(Repr()) && unchanged(Repr())
    {
      hide Consistent, ValidCapacity;
      if attached {
        return false;
      }
      var hash := HashString(name, |name|);
      assert name[..|name|] == name;
      var cellIx, found := GetCellIx(name, hash);
      if found {
        Overwrite(name, cells[cellIx], value);
        return true;
      }
      if count >= itemCapacity {
        GrowAndRehash();
        cellIx, found := GetCellIx(name, hash);
      }
      Append(name, value, hash, cellIx);
      return true;
    }

    /** Takes a member out: the last item moves into its slot, then the cells behind it shift back. */
    method RemoveInternal(name: CString) returns (ok: bool)
      requires Valid()
      modifies Repr()
      ensures Valid() && Repr() == old(Repr())
      ensures ok == HasName(old(Contents()), name)
      ensures Contents() == Without(old(Contents()), name)
    {
      hide Consistent, Loosened, ValidCapacity, Zip, HasName;
      var hash := HashString(name, |name|);
      assert name[..|name|] == name;
      var cell, found := GetCellIx(name, hash);
      if !found {
        return false;
      }
      var itemIx := cells[cell];
      ContentsDistinct();
      LookupAt(Contents(), itemIx);
      ghost var free := FreeCell(cells[..], cellIxs[..count], hashes[..count], names[..count]);
      SwapWithLast(itemIx, cell);
      ShiftBack(cell, free);
      return true;
    }

    /** Fills the slot of item `itemIx` with the last item; the cell `cell` is left pointing nowhere useful. */
    method SwapWithLast(itemIx: nat, ghost cell: int)
      requires Valid() && itemIx < count && 0 <= cell < cellCapacity && cells[cell] == itemIx
      modifies Repr()
      ensures Allocated() && Repr() == old(Repr()) && cellCapacity == old(cellCapacity)
      ensures Loosened(cells[..], cellIxs[..count], hashes[..count], names[..count], cell, cell)
      ensures Contents() == SwapOut(old(Contents()), itemIx)
      ensures forall c :: 0 <= c < cellCapacity && old(cells[c]) == EMPTY ==> cells[c] == EMPTY
    {
      hide Loosened, Consistent, ValidCapacity, SwapOut, Zip;
      ghost var table, at, hs, ns := cells[..], cellIxs[..count], hashes[..count], names[..count];
      ghost var vs, full := values[..count], (cellIxs[..], hashes[..], names[..], values[..]);
      OccupiedCell(table, at, hs, ns, cell);
      var lastItemIx := count - 1;
      ItemCell(table, at, hs, ns, lastItemIx);
      SwapLoosens(table, at, hs, ns, itemIx);
      SwapOutZip(ns, vs, itemIx);
      MovedLast(full.0, count, itemIx);
      MovedLast(full.1, count, itemIx);
      MovedLast(full.2, count, itemIx);
      MovedLast(full.3, count, itemIx);
      if itemIx < lastItemIx {
        MoveItem(lastItemIx, itemIx);
      }
      count := count - 1;
    }

    /** Every column of item `from` is copied to the slot `to`, and its cell follows. */
    method MoveItem(from: nat, to: nat)
      requires Allocated() && from < count && to < count && 0 <= cellIxs[from] < cellCapacity
      modifies cells, cellIxs, hashes, names, values
      ensures Allocated()
      ensures cells[..] == old(cells[..])[old(cellIxs[from]) := to] && cellIxs[..] == old(cellIxs[..])[to := old(cellIxs[from])]
      ensures hashes[..] == old(hashes[..])[to := old(hashes[from])]
      ensures names[..] == old(names[..])[to := old(names[from])] && values[..] == old(values[..])[to := old(values[from])]
    {
      hide ValidCapacity;
      names[to] := names[from];
      values[to] := values[from];
      cellIxs[to] := cellIxs[from];
      hashes[to] := hashes[from];
      cells[cellIxs[to]] := to;
    }

    /** Closes the gap at `cell`: items whose probe crosses it move back, until the scan meets an empty cell. */
    method ShiftBack(cell: int, ghost free: int)
      requires Allocated() && 0 <= cell < cellCapacity
      requires Loosened(cells[..], cellIxs[..count], hashes[..count], names[..count], cell, cell)
      requires 0 <= free < cellCapacity && free != cell && cells[free] == EMPTY
      modifies cells, cellIxs
      ensures Valid()
    {
      hide Loosened, Consistent, After, Wrap;
      var i, j := cell, cell;
      ghost var hs, ns := hashes[..count], names[..count];
      ScanStart(cell, free, cellCapacity);
      for x := 0 to cellCapacity - 1
        invariant 0 <= i < cellCapacity && j == Wrap(cell + x, cellCapacity)
        invariant i == cell || After(i, cell, j)
        invariant free != i && !After(free, cell, j) && cells[free] == EMPTY
        invariant x < cellCapacity - 1
        invariant Loosened(cells[..], cellIxs[..count], hs, ns, i, j)
      {
        ghost var last := j;
        ScanStep(cell, x, i, free, cellCapacity);
        j := (j + 1) % cellCapacity;
        ghost var table, at := cells[..], cellIxs[..count];
        if cells[j] == EMPTY {
          ShiftStops(table, at, hs, ns, i, last);
          break;
        }
        ShiftStep(table, at, hs, ns, i, last);
        var k := Home(hashes[cells[j]], cellCapacity);
        AfterIsSource(k, i, j);
        if (j > i && (k <= i || k > j)) || (j < i && k <= i && k > j) {
          cellIxs[cells[j]] := i;
          cells[i] := cells[j];
          assert cells[..] == table[i := table[j]];
          assert cellIxs[..count] == at[table[j] := i];
          i := j;
        }
      }
      ghost var table := cells[..];
      cells[i] := EMPTY;
      assert cells[..] == table[i := EMPTY];
    }

    /** Carries out one client call. */
    method Perform(call: Call<V>) returns (a: Answer<V>)
      requires Valid() && count < MAX_ITEMS
      modifies Repr()
      ensures Valid() && fresh(Repr() - old(Repr()))
      ensures (Contents(), a) == Apply(old(Contents()), call)
      ensures count <= old(count) + 1
    {
      match call
      case Add(n, v) =>
        var ok := Add(n, v);
        a := Status(ok);
      case Set(n, v) =>
        var ok := SetValue(n, v, false);
        a := Status(ok);
      case Remove(n) =>
        var ok := RemoveInternal(n);
        a := Status(ok);
      case Get(n) =>
        var r := GetN(n, |n|);
        assert n[..|n|] == n;
        a := Found(r);
    }

    /** Carries out a sequence of calls: the table answers as the item list would. */
    method PerformAll(calls: seq<Call<V>>) returns (answers: seq<Answer<V>>)
      requires Valid() && count + |calls| < MAX_ITEMS
      modifies Repr()
      ensures Valid() && fresh(Repr() - old(Repr()))
      ensures (Contents(), answers) == Run(old(Contents()), calls)
      decreases |calls|
    {
      hide Consistent, ValidCapacity, Zip, Apply, JsonObject.Allocated, JsonObject.Contents;
      if calls == [] {
        return [];
      }
      var a := Perform(calls[0]);
      var rest := PerformAll(calls[1..]);
      return [a] + rest;
    }
  }
}
