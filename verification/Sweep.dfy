/** The listener's sweep: it pairs couriers that wait for a named order with ready orders of that name. */
module Sweep {
  import opened Bytes
  import opened Items
  import opened Pools

  datatype Delivery = Delivery(courier: Courier, order: Order)

  /** The first ready order of a name. */
  function FirstNamed(orders: seq<Order>, name: string): (r: Option<nat>)
    ensures r.Some? ==> r.value < |orders| && orders[r.value].name == name
                        && forall j :: 0 <= j < r.value ==> orders[j].name != name
    ensures r.None? ==> forall j :: 0 <= j < |orders| ==> orders[j].name != name
  {
    if orders == [] then None
    else if orders[0].name == name then Some(0)
    else match FirstNamed(orders[1..], name)
         case None => None
         case Some(j) => Some(j + 1)
  }

  /** The two pools, and what has been delivered. */
  datatype Waiting = Waiting(couriers: seq<Courier>, orders: seq<Order>, log: seq<Delivery>)

  /**
   * The rest of a sweep from courier `i` on.  When courier `i` is matched, the last courier moves to its place
   * and is passed over, because the walk goes on at `i + 1`.
   */
  function SweepFrom(p: Waiting, i: nat): Waiting
    decreases |p.couriers| - i
  {
    if i >= |p.couriers| then p
    else match FirstNamed(p.orders, p.couriers[i].target)
         case None => SweepFrom(p, i + 1)
         case Some(j) => SweepFrom(Matched(p, i, j), i + 1)
  }

  /** Courier `i` delivers order `j`. */
  function Matched(p: Waiting, i: nat, j: nat): Waiting
    requires i < |p.couriers| && j < |p.orders|
  {
    Waiting(SwapOut(p.couriers, i), SwapOut(p.orders, j), p.log + [Delivery(p.couriers[i], p.orders[j])])
  }

  function SweepOnce(p: Waiting): Waiting {
    SweepFrom(p, 0)
  }

  /** Some courier waits for an order that is ready. */
  ghost predicate HasMatch(p: Waiting) {
    exists i, j :: 0 <= i < |p.couriers| && 0 <= j < |p.orders| && p.couriers[i].target == p.orders[j].name
  }

  // --- What a sweep keeps ---

  function Targets(couriers: seq<Courier>): seq<string> {
    seq(|couriers|, i requires 0 <= i < |couriers| => couriers[i].target)
  }

  function OrderNames(orders: seq<Order>): seq<string> {
    seq(|orders|, i requires 0 <= i < |orders| => orders[i].name)
  }

  function Couriers(log: seq<Delivery>): seq<Courier> {
    seq(|log|, i requires 0 <= i < |log| => log[i].courier)
  }

  function Orders(log: seq<Delivery>): seq<Order> {
    seq(|log|, i requires 0 <= i < |log| => log[i].order)
  }

  lemma SwapOutTakesOne<T>(s: seq<T>, i: nat)
    requires i < |s|
    ensures multiset(s) == multiset(SwapOut(s, i)) + multiset{s[i]}
  {
    var l := |s| - 1;
    assert s == s[..l] + [s[l]];
    if i < l {
      assert s[..l] == s[..i] + [s[i]] + s[i + 1..l];
      assert SwapOut(s, i) == s[..i] + [s[l]] + s[i + 1..l];
    } else {
      assert SwapOut(s, i) == s[..l];
    }
  }

  /** Nothing is made or lost: what is waiting and what is delivered add up, and everyone delivers what they waited for. */
  ghost predicate Accounts(p: Waiting, couriers: multiset<Courier>, orders: multiset<Order>) {
    && multiset(p.couriers) + multiset(Couriers(p.log)) == couriers
    && multiset(p.orders) + multiset(Orders(p.log)) == orders
    && forall k :: 0 <= k < |p.log| ==> p.log[k].courier.target == p.log[k].order.name
  }

  lemma MatchedAccounts(p: Waiting, i: nat, j: nat, couriers: multiset<Courier>, orders: multiset<Order>)
    requires i < |p.couriers| && j < |p.orders| && p.couriers[i].target == p.orders[j].name
    requires Accounts(p, couriers, orders)
    ensures Accounts(Matched(p, i, j), couriers, orders)
  {
    var q := Matched(p, i, j);
    SwapOutTakesOne(p.couriers, i);
    SwapOutTakesOne(p.orders, j);
    assert Couriers(q.log) == Couriers(p.log) + [p.couriers[i]];
    assert Orders(q.log) == Orders(p.log) + [p.orders[j]];
  }

  lemma {:induction false} SweepAccounts(p: Waiting, i: nat, couriers: multiset<Courier>, orders: multiset<Order>)
    requires Accounts(p, couriers, orders)
    ensures Accounts(SweepFrom(p, i), couriers, orders)
    decreases |p.couriers| - i
  {
    hide Accounts, Matched;
    if i < |p.couriers| {
      match FirstNamed(p.orders, p.couriers[i].target)
      case None => SweepAccounts(p, i + 1, couriers, orders);
      case Some(j) =>
        MatchedAccounts(p, i, j, couriers, orders);
        assert |Matched(p, i, j).couriers| == |p.couriers| - 1 by { MatchedSizes(p, i, j); }
        SweepAccounts(Matched(p, i, j), i + 1, couriers, orders);
    }
  }

  lemma MatchedSizes(p: Waiting, i: nat, j: nat)
    requires i < |p.couriers| && j < |p.orders|
    ensures var q := Matched(p, i, j); |q.couriers| == |p.couriers| - 1 && |q.orders| == |p.orders| - 1 && |q.log| == |p.log| + 1
  {
  }

  // --- Progress ---

  /** As many couriers as orders leave, one for each delivery. */
  lemma {:induction false} SweepSizes(p: Waiting, i: nat)
    ensures var q := SweepFrom(p, i);
            && |p.log| <= |q.log|
            && |q.couriers| + (|q.log| - |p.log|) == |p.couriers|
            && |q.orders| + (|q.log| - |p.log|) == |p.orders|
            && (|q.log| == |p.log| ==> q == p)
    decreases |p.couriers| - i
  {
    if i < |p.couriers| {
      match FirstNamed(p.orders, p.couriers[i].target)
      case None => SweepSizes(p, i + 1);
      case Some(j) =>
        MatchedSizes(p, i, j);
        SweepSizes(Matched(p, i, j), i + 1);
    }
  }

  /** A sweep delivers something whenever a courier not yet passed has a match. */
  lemma {:induction false} SweepFinds(p: Waiting, i: nat, k: nat)
    requires i <= k < |p.couriers| && FirstNamed(p.orders, p.couriers[k].target).Some?
    ensures |p.log| < |SweepFrom(p, i).log|
    decreases k - i
  {
    match FirstNamed(p.orders, p.couriers[i].target)
    case None => SweepFinds(p, i + 1, k);
    case Some(j) =>
      MatchedSizes(p, i, j);
      SweepSizes(Matched(p, i, j), i + 1);
  }

  function SweepTimes(p: Waiting, n: nat): Waiting
    decreases n
  {
    if n == 0 then p else SweepTimes(SweepOnce(p), n - 1)
  }

  function Smaller(a: nat, b: nat): nat {
    if a < b then a else b
  }

  /** After as many sweeps as there are couriers, or orders, whichever is less, no match is left, although every sweep passes some couriers over. */
  lemma {:induction false} SweepsFinish(p: Waiting, n: nat)
    requires Smaller(|p.couriers|, |p.orders|) <= n
    ensures !HasMatch(SweepTimes(p, n))
    decreases n
  {
    hide SweepOnce;
    if n > 0 {
      var q := SweepOnce(p);
      assert q == SweepFrom(p, 0) by { SweepOnceIs(p); }
      SweepSizes(p, 0);
      if q == p {
        if i, j :| 0 <= i < |p.couriers| && 0 <= j < |p.orders| && p.couriers[i].target == p.orders[j].name {
          SweepFinds(p, 0, i);
          assert false;
        }
        SweepsIdle(p, n);
      } else {
        SweepsFinish(q, n - 1);
      }
    }
  }

  lemma SweepOnceIs(p: Waiting)
    ensures SweepOnce(p) == SweepFrom(p, 0)
  {
  }

  lemma {:induction false} SweepsIdle(p: Waiting, n: nat)
    requires SweepOnce(p) == p
    ensures SweepTimes(p, n) == p
    decreases n
  {
    hide SweepOnce;
    if n > 0 {
      SweepsIdle(p, n - 1);
    }
  }

  lemma {:induction false} SweepsAccount(p: Waiting, n: nat, couriers: multiset<Courier>, orders: multiset<Order>)
    requires Accounts(p, couriers, orders)
    ensures Accounts(SweepTimes(p, n), couriers, orders)
    decreases n
  {
    hide Accounts, SweepFrom;
    if n > 0 {
      SweepAccounts(p, 0, couriers, orders);
      SweepsAccount(SweepOnce(p), n - 1, couriers, orders);
    }
  }

  // --- What one sweep leaves undone ---

  /** From courier `i` on, everyone waits for another name, and each of these names is ready. */
  ghost predicate AllServable(p: Waiting, i: nat) {
    && (forall a, b :: i <= a < b < |p.couriers| ==> p.couriers[a].target != p.couriers[b].target)
    && (forall k :: i <= k < |p.couriers| ==> FirstNamed(p.orders, p.couriers[k].target).Some?)
  }

  lemma StillNamed(orders: seq<Order>, j: nat, name: string)
    requires j < |orders| && orders[j].name != name && FirstNamed(orders, name).Some?
    ensures FirstNamed(SwapOut(orders, j), name).Some?
  {
    var k, rest := FirstNamed(orders, name).value, SwapOut(orders, j);
    assert rest[if k < |rest| then k else j].name == name;
  }

  lemma MatchedServable(p: Waiting, i: nat, j: nat)
    requires AllServable(p, i) && i < |p.couriers| && j < |p.orders| && p.orders[j].name == p.couriers[i].target
    ensures AllServable(Matched(p, i, j), i + 1)
    ensures forall k :: i < k < |p.couriers| - 1 ==> Matched(p, i, j).couriers[k] == p.couriers[k]
  {
    var q := Matched(p, i, j);
    forall k | i < k < |p.couriers| - 1
      ensures FirstNamed(q.orders, q.couriers[k].target).Some?
    {
      StillNamed(p.orders, j, p.couriers[k].target);
    }
  }

  lemma SweepEnds(p: Waiting, i: nat)
    requires i >= |p.couriers|
    ensures SweepFrom(p, i) == p
  {
  }

  lemma NextServed(p: Waiting, i: nat) returns (j: nat)
    requires AllServable(p, i) && i < |p.couriers|
    ensures j < |p.orders| && p.orders[j].name == p.couriers[i].target && SweepFrom(p, i) == SweepFrom(Matched(p, i, j), i + 1)
  {
    hide Matched;
    j := FirstNamed(p.orders, p.couriers[i].target).value;
  }

  lemma MatchedLog(p: Waiting, i: nat, j: nat)
    requires i < |p.couriers| && j < |p.orders|
    ensures Couriers(Matched(p, i, j).log) == Couriers(p.log) + [p.couriers[i]]
  {
  }

  lemma NextHalf(couriers: seq<Courier>, rest: seq<Courier>, i: nat, half: nat, served: seq<Courier>)
    requires i < |couriers| && i + 1 + half <= |rest| == |couriers| - 1
    requires forall k :: i < k < |rest| ==> rest[k] == couriers[k]
    ensures served + [couriers[i]] + rest[i + 1..i + 1 + half] == served + couriers[i..i + 1 + half]
  {
    assert couriers[i..i + 1 + half] == [couriers[i]] + couriers[i + 1..i + 1 + half];
    assert rest[i + 1..i + 1 + half] == couriers[i + 1..i + 1 + half];
  }

  /**
   * Of couriers whose orders are all ready, one sweep serves only the first half, in order: whenever one is served,
   * the last of them moves to the place that the sweep is leaving.
   */
  lemma {:induction false} SweepServesHalf(p: Waiting, i: nat)
    requires AllServable(p, i) && i <= |p.couriers|
    ensures var half, q := (|p.couriers| - i + 1) / 2, SweepFrom(p, i);
            Couriers(q.log) == Couriers(p.log) + p.couriers[i..i + half] && |q.couriers| == |p.couriers| - half
    decreases |p.couriers| - i
  {
    hide AllServable, Matched, Couriers, FirstNamed, SweepFrom;
    var n := |p.couriers|;
    assert i < n ==> (n - i + 1) / 2 == 1 + (n - i - 1) / 2;
    if i == n {
      SweepEnds(p, i);
      assert Couriers(p.log) + [] == Couriers(p.log) && p.couriers[i..i] == [];
    } else {
      var j := NextServed(p, i);
      var q := Matched(p, i, j);
      MatchedSizes(p, i, j);
      MatchedServable(p, i, j);
      MatchedLog(p, i, j);
      if i + 1 < n {
        SweepServesHalf(q, i + 1);
        NextHalf(p.couriers, q.couriers, i, (n - i - 1) / 2, Couriers(p.log));
      } else {
        SweepEnds(q, i + 1);
        assert p.couriers[i..i + 1] == [p.couriers[i]];
      }
    }
  }

  // --- How often each name is delivered ---

  function Delivered(log: seq<Delivery>): seq<string> {
    OrderNames(Orders(log))
  }

  /** Name by name, what still waits and what was delivered add up. */
  ghost predicate NamesAccount(p: Waiting, targets: multiset<string>, names: multiset<string>) {
    && multiset(Targets(p.couriers)) + multiset(Delivered(p.log)) == targets
    && multiset(OrderNames(p.orders)) + multiset(Delivered(p.log)) == names
  }

  lemma MatchedNamesAccount(p: Waiting, i: nat, j: nat, targets: multiset<string>, names: multiset<string>)
    requires i < |p.couriers| && j < |p.orders| && p.couriers[i].target == p.orders[j].name
    requires NamesAccount(p, targets, names)
    ensures NamesAccount(Matched(p, i, j), targets, names)
  {
    var q := Matched(p, i, j);
    SwapOutTakesOne(Targets(p.couriers), i);
    SwapOutTakesOne(OrderNames(p.orders), j);
    assert Targets(q.couriers) == SwapOut(Targets(p.couriers), i);
    assert OrderNames(q.orders) == SwapOut(OrderNames(p.orders), j);
    assert Delivered(q.log) == Delivered(p.log) + [p.orders[j].name];
  }

  lemma {:induction false} SweepNamesAccount(p: Waiting, i: nat, targets: multiset<string>, names: multiset<string>)
    requires NamesAccount(p, targets, names)
    ensures NamesAccount(SweepFrom(p, i), targets, names)
    decreases |p.couriers| - i
  {
    hide NamesAccount, Matched;
    if i < |p.couriers| {
      match FirstNamed(p.orders, p.couriers[i].target)
      case None => SweepNamesAccount(p, i + 1, targets, names);
      case Some(j) =>
        MatchedNamesAccount(p, i, j, targets, names);
        MatchedSizes(p, i, j);
        SweepNamesAccount(Matched(p, i, j), i + 1, targets, names);
    }
  }

  lemma {:induction false} SweepsNamesAccount(p: Waiting, n: nat, targets: multiset<string>, names: multiset<string>)
    requires NamesAccount(p, targets, names)
    ensures NamesAccount(SweepTimes(p, n), targets, names)
    decreases n
  {
    hide NamesAccount, SweepFrom;
    if n > 0 {
      SweepNamesAccount(p, 0, targets, names);
      SweepsNamesAccount(SweepOnce(p), n - 1, targets, names);
    }
  }

  /** Left to itself, the listener delivers every name as often as both a courier waits for it and an order of it is ready. */
  lemma EachNameDelivered(p: Waiting, n: nat, name: string)
    requires p.log == [] && Smaller(|p.couriers|, |p.orders|) <= n
    ensures multiset(Delivered(SweepTimes(p, n).log))[name]
            == Smaller(multiset(Targets(p.couriers))[name], multiset(OrderNames(p.orders))[name])
  {
    var q := SweepTimes(p, n);
    assert multiset(Delivered([])) == multiset{};
    SweepsNamesAccount(p, n, multiset(Targets(p.couriers)), multiset(OrderNames(p.orders)));
    SweepsFinish(p, n);
    CommonNameMatches(q, name);
  }

  lemma CommonNameMatches(q: Waiting, name: string)
    ensures name in multiset(Targets(q.couriers)) && name in multiset(OrderNames(q.orders)) ==> HasMatch(q)
  {
  }

  // --- The listener's loops over the shared pools ---

  /** How long the couriers of some deliveries have waited. */
  function CourierWaits(log: seq<Delivery>, now: int): seq<int> {
    seq(|log|, i requires 0 <= i < |log| => now - log[i].courier.arrivedAt)
  }

  function OrderWaits(log: seq<Delivery>, now: int): seq<int> {
    seq(|log|, i requires 0 <= i < |log| => now - log[i].order.readyAt)
  }

  lemma WaitsAppend(before: seq<int>, log: seq<Delivery>, d: Delivery, now: int)
    ensures before + CourierWaits(log, now) + [now - d.courier.arrivedAt] == before + CourierWaits(log + [d], now)
    ensures before + OrderWaits(log, now) + [now - d.order.readyAt] == before + OrderWaits(log + [d], now)
  {
  }

  /** `deliver_order`: records how long order and courier have waited. */
  method DeliverOrder(courier: Courier, order: Order, now: int, records: TimeRecords)
    requires records.Valid() && records.courierCount < COURIER_QUEUE_SIZE && records.orderCount < ORDER_LIST_SIZE
    modifies records, records.courierTimes, records.orderTimes
    ensures records.Valid()
    ensures records.courierTimes[..records.courierCount] == old(records.courierTimes[..records.courierCount]) + [now - courier.arrivedAt]
    ensures records.orderTimes[..records.orderCount] == old(records.orderTimes[..records.orderCount]) + [now - order.readyAt]
  {
    records.Add(now - order.readyAt, now - courier.arrivedAt);
  }

  /** Courier `i` takes order `j`: the pair is delivered, then both leave their pools. */
  method MatchPools(couriers: TargetCouriers, orders: ReadyOrders, records: TimeRecords, i: nat, j: nat, now: int) returns (d: Delivery)
    requires couriers.Valid() && orders.Valid() && records.Valid() && i < couriers.count && j < orders.count
    requires records.courierCount < COURIER_QUEUE_SIZE && records.orderCount < ORDER_LIST_SIZE
    modifies couriers, couriers.couriers, orders, orders.orders, records, records.courierTimes, records.orderTimes
    ensures couriers.Valid() && orders.Valid() && records.Valid()
    ensures d == Delivery(old(couriers.Contents()[i]), old(orders.Contents()[j]))
    ensures couriers.Contents() == SwapOut(old(couriers.Contents()), i) && orders.Contents() == SwapOut(old(orders.Contents()), j)
    ensures records.courierTimes[..records.courierCount]
            == old(records.courierTimes[..records.courierCount]) + [now - d.courier.arrivedAt]
    ensures records.orderTimes[..records.orderCount] == old(records.orderTimes[..records.orderCount]) + [now - d.order.readyAt]
  {
    d := Delivery(couriers.couriers[i], orders.orders[j]);
    DeliverOrder(d.courier, d.order, now, records);
    couriers.Remove(i);
    orders.Remove(j);
  }

  /** The inner loop: the first ready order the courier waits for. */
  method FindNamed(orders: ReadyOrders, name: string) returns (j: nat)
    requires orders.Valid()
    ensures match FirstNamed(orders.Contents(), name) case None => j == orders.count case Some(k) => j == k
  {
    j := 0;
    while j < orders.count && orders.orders[j].name != name
      invariant j <= orders.count
      invariant forall k :: 0 <= k < j ==> orders.Contents()[k].name != name
    {
      j := j + 1;
    }
    assert j < orders.count ==> orders.Contents()[j].name == name;
  }

  /** One sweep over both pools; the record arrays have room for every order that is ready. */
  method SweepPools(couriers: TargetCouriers, orders: ReadyOrders, records: TimeRecords, now: int) returns (log: seq<Delivery>)
    requires couriers.Valid() && orders.Valid() && records.Valid()
    requires records.courierCount + orders.count <= COURIER_QUEUE_SIZE && records.orderCount + orders.count <= ORDER_LIST_SIZE
    modifies couriers, couriers.couriers, orders, orders.orders, records, records.courierTimes, records.orderTimes
    ensures couriers.Valid() && orders.Valid() && records.Valid()
    ensures Waiting(couriers.Contents(), orders.Contents(), log) == SweepOnce(Waiting(old(couriers.Contents()), old(orders.Contents()), []))
    ensures records.courierTimes[..records.courierCount]
            == old(records.courierTimes[..records.courierCount]) + CourierWaits(log, now)
    ensures records.orderTimes[..records.orderCount] == old(records.orderTimes[..records.orderCount]) + OrderWaits(log, now)
  {
    assert CourierWaits([], now) == [] && OrderWaits([], now) == [];
    hide CourierWaits, OrderWaits;
    log := [];
    var i := 0;
    ghost var p := Waiting(couriers.Contents(), orders.Contents(), log);
    while i < couriers.count
      invariant 0 <= i && couriers.Valid() && orders.Valid() && records.Valid()
      invariant p == Waiting(couriers.Contents(), orders.Contents(), log)
      invariant SweepFrom(p, i) == SweepOnce(Waiting(old(couriers.Contents()), old(orders.Contents()), []))
      invariant records.courierCount + orders.count <= COURIER_QUEUE_SIZE && records.orderCount + orders.count <= ORDER_LIST_SIZE
      invariant records.courierTimes[..records.courierCount]
                == old(records.courierTimes[..records.courierCount]) + CourierWaits(log, now)
      invariant records.orderTimes[..records.orderCount] == old(records.orderTimes[..records.orderCount]) + OrderWaits(log, now)
      decreases couriers.count - i
    {
      var j := FindNamed(orders, couriers.couriers[i].target);
      if j < orders.count {
        var d := MatchPools(couriers, orders, records, i, j, now);
        WaitsAppend(old(records.courierTimes[..records.courierCount]), log, d, now);
        WaitsAppend(old(records.orderTimes[..records.orderCount]), log, d, now);
        log := log + [d];
        p := Matched(p, i, j);
      }
      i := i + 1;
    }
  }
}
