/**
 The open-addressing cell array of a JSON object, seen as sequences.

 `cells[c]` is the index of the item stored in cell `c`, or `EMPTY`; `at[m]` is the cell of item `m`;
 `homes[m]` is the cell its hash selects.  Probing walks the cells cyclically from the home cell.
 */
module CellLayout {
  import opened Arithmetic
  /** The sources' OBJECT_INVALID_IX. */
  const EMPTY := -1

  /** The `& (capacity - 1)` of a hash, for a power-of-two capacity. */
  function Home(hash: int, capacity: nat): (h: int)
    requires 0 < capacity
    ensures 0 <= h < capacity
  {
    hash % capacity
  }

  /** The home cell is the part of the hash below the capacity; what stands above plays no part. */
  lemma HomeIsLowPart(high: nat, low: nat, capacity: nat)
    requires low < capacity
    ensures Home(high * capacity + low, capacity) == low
  {
    RemainderIs(high, low, capacity);
  }

  /** `(c + d) & (capacity - 1)` for a single lap. */
  function Wrap(c: int, capacity: int): int {
    if c < capacity then c else c - capacity
  }

  lemma WrapIsMod(c: int, capacity: int)
    requires 0 <= c < 2 * capacity
    ensures Wrap(c, capacity) == c % capacity
  {
  }

  /** Cell `c` is visited by a cyclic walk that starts at `from` and stops before `to`. */
  predicate OnPath(c: int, from: int, to: int) {
    if from <= to then from <= c < to else c >= from || c < to
  }

  /** Cell `c` lies cyclically after `hole`, up to and including `last`. */
  predicate After(c: int, hole: int, last: int) {
    if hole <= last then hole < c <= last else c > hole || c <= last
  }

  /** `cells` and `at` are inverse to each other, except that the cell `hole` may hold anything and holds no item. */
  ghost predicate LinkedBut(cells: seq<int>, at: seq<int>, hole: int) {
    && (forall m :: 0 <= m < |at| ==> 0 <= at[m] < |cells| && at[m] != hole && cells[at[m]] == m)
    && (forall c :: 0 <= c < |cells| && c != hole ==>
          cells[c] == EMPTY || (0 <= cells[c] < |at| && at[cells[c]] == c))
  }

  /** Every cell a probe passes on its way to an item is occupied; `hole` is not looked at. */
  ghost predicate ReachableBut(cells: seq<int>, at: seq<int>, homes: seq<int>, hole: int)
    requires |at| == |homes|
  {
    forall m, c :: 0 <= m < |at| && 0 <= c < |cells| && c != hole && OnPath(c, homes[m], at[m]) ==> cells[c] != EMPTY
  }

  /** No item whose probe path crosses `hole` sits in the cells after it up to `last`. */
  ghost predicate ClearedUpTo(at: seq<int>, homes: seq<int>, hole: int, last: int)
    requires |at| == |homes|
  {
    forall m :: 0 <= m < |at| && After(at[m], hole, last) ==> !OnPath(hole, homes[m], at[m])
  }

  ghost predicate HomesIn(homes: seq<int>, capacity: int) {
    forall m :: 0 <= m < |homes| ==> 0 <= homes[m] < capacity
  }

  /** The table invariant: the two indexes are inverse and every probe path is unbroken. */
  ghost predicate Placed(cells: seq<int>, at: seq<int>, homes: seq<int>) {
    && |at| == |homes|
    && HomesIn(homes, |cells|)
    && LinkedBut(cells, at, EMPTY)
    && ReachableBut(cells, at, homes, EMPTY)
  }

  /** The state of a removal in progress: the table without the cell `hole`, scanned up to `last`. */
  ghost predicate Shifting(cells: seq<int>, at: seq<int>, homes: seq<int>, hole: int, last: int) {
    && |at| == |homes|
    && 0 <= hole < |cells| && 0 <= last < |cells|
    && HomesIn(homes, |cells|)
    && LinkedBut(cells, at, hole)
    && ReachableBut(cells, at, homes, hole)
    && ClearedUpTo(at, homes, hole, last)
  }

  /** A sequence of item indexes that is longer than there are items repeats one. */
  lemma {:induction false} Pigeonhole(f: seq<int>, n: nat) returns (a: nat, b: nat)
    requires n < |f|
    requires forall i :: 0 <= i < |f| ==> 0 <= f[i] < n
    ensures a < b < |f| && f[a] == f[b]
    decreases n
  {
    var l := |f| - 1;
    if i :| 0 <= i < l && f[i] == f[l] {
      return i, l;
    }
    // rename the top value to the one the last position holds, and drop that position
    var g := seq(l, i requires 0 <= i < l => if f[i] == n - 1 then f[l] else f[i]);
    a, b := Pigeonhole(g, n - 1);
  }

  /** A table with more cells than items has an empty cell, so every probe stops. */
  lemma EmptyCellExists(cells: seq<int>, at: seq<int>) returns (e: nat)
    requires LinkedBut(cells, at, EMPTY)
    requires |at| < |cells|
    ensures e < |cells| && cells[e] == EMPTY
  {
    if c :| 0 <= c < |cells| && cells[c] == EMPTY {
      return c;
    }
    var a, b := Pigeonhole(cells, |at|);
    assert false;
  }

  /** Storing a new item in the empty cell where its probe stopped keeps the table invariant. */
  lemma InsertKeepsPlaced(cells: seq<int>, at: seq<int>, homes: seq<int>, home: int, free: int)
    requires Placed(cells, at, homes)
    requires 0 <= home < |cells| && 0 <= free < |cells| && cells[free] == EMPTY
    requires forall c :: 0 <= c < |cells| && OnPath(c, home, free) ==> cells[c] != EMPTY
    ensures Placed(cells[free := |at|], at + [free], homes + [home])
  {
  }

  /** After the last item has moved into the freed item slot, the table is intact but for the freed cell. */
  lemma SwapStartsShifting(cells: seq<int>, at: seq<int>, homes: seq<int>, item: int)
    requires Placed(cells, at, homes)
    requires 0 <= item < |at|
    ensures var last := |at| - 1;
            Shifting(if item < last then cells[at[last] := item] else cells,
                     at[item := at[last]][..last], homes[item := homes[last]][..last], at[item], at[item])
  {
  }

  /** Moving the item of cell `j` into the hole is sound when its home is not between the two. */
  lemma MoveKeepsShifting(cells: seq<int>, at: seq<int>, homes: seq<int>, hole: int, last: int)
    requires Shifting(cells, at, homes, hole, last)
    requires var j := Wrap(last + 1, |cells|);
             j != hole && cells[j] != EMPTY && !After(homes[cells[j]], hole, j)
    ensures var j := Wrap(last + 1, |cells|);
            Shifting(cells[hole := cells[j]], at[cells[j] := hole], homes, j, j)
  {
  }

  /** Leaving the item of cell `j` alone is sound when its home is between the hole and `j`. */
  lemma SkipKeepsShifting(cells: seq<int>, at: seq<int>, homes: seq<int>, hole: int, last: int)
    requires Shifting(cells, at, homes, hole, last)
    requires var j := Wrap(last + 1, |cells|);
             j != hole && cells[j] != EMPTY && After(homes[cells[j]], hole, j)
    ensures var j := Wrap(last + 1, |cells|);
            Shifting(cells, at, homes, hole, j)
  {
  }

  /** Once the scan meets an empty cell, emptying the hole restores the table invariant. */
  lemma StopRestoresPlaced(cells: seq<int>, at: seq<int>, homes: seq<int>, hole: int, last: int)
    requires Shifting(cells, at, homes, hole, last)
    requires var j := Wrap(last + 1, |cells|);
             j != hole && cells[j] == EMPTY
    ensures Placed(cells[hole := EMPTY], at, homes)
  {
  }
}
