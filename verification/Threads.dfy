/**
 The threads' sections over the shared pools, one at a time in any order, or a whole method at once: they take the
 steps of `Dispatch`.
 */
module Threads {
  import opened Bytes
  import opened Items
  import opened Pools
  import opened Sweep
  import opened Dispatch
  import opened DispatchRuns

  /** What the threads hold in variables of their own. */
  datatype Locals = Locals(
    cooking: multiset<Order>,
    unserved: multiset<Order>,
    arrived: nat,
    popped: multiset<Order>,
    emptyHanded: nat,
    paired: seq<Delivery>)

  function LocalsOf(s: State): Locals {
    Locals(s.cooking, s.unserved, s.arrived, s.popped, s.emptyHanded, s.paired)
  }

  /** Everything the threads share. */
  class Dispatcher {
    const ring: RandomCouriers
    const targets: TargetCouriers
    const orders: ReadyOrders
    const records: TimeRecords

    ghost predicate Valid()
      reads ring, targets, orders, records
    {
      && ring.Valid() && targets.Valid() && orders.Valid() && records.Valid()
      && ring.values != targets.couriers
    }

    /** The pools hold what a state says. */
    ghost predicate Shows(s: State)
      requires Valid()
      reads ring, ring.values, targets, targets.couriers, orders, orders.orders, records
    {
      && ring.Queue() == s.ring && targets.Contents() == s.targeted && orders.Contents() == s.ready
      && records.orderCount == |s.delivered| && records.courierCount == |s.delivered|
    }

    /** The pools and the threads' own variables are those of a state. */
    ghost predicate InState(l: Locals, s: State)
      reads ring, ring.values, targets, targets.couriers, orders, orders.orders, records
    {
      Valid() && Shows(s) && l == LocalsOf(s)
    }

    /** Each delivery from `s` to `t` has put the two waiting times behind those recorded before. */
    ghost predicate Recorded(courierTimes: seq<int>, orderTimes: seq<int>, s: State, t: State, now: int)
      requires records.Valid()
      reads records, records.courierTimes, records.orderTimes
    {
      && s.delivered <= t.delivered
      && var log := t.delivered[|s.delivered|..];
      && records.courierTimes[..records.courierCount] == courierTimes + CourierWaits(log, now)
      && records.orderTimes[..records.orderCount] == orderTimes + OrderWaits(log, now)
    }

    constructor (input: seq<Order>)
      ensures InState(LocalsOf(Init(input)), Init(input))
      ensures records.courierTimes[..records.courierCount] == records.orderTimes[..records.orderCount] == []
    {
      ring := new RandomCouriers();
      targets := new TargetCouriers();
      orders := new ReadyOrders();
      records := new TimeRecords();
    }

    /** A section that takes a courier out of the ring. */
    method TakeFromRing(step: Step, l: Locals, ghost s: State) returns (m: Locals)
      requires InState(l, s) && Enabled(s, step) && (step.AskCourier? || step.TakeCourier? || step.TakeCourierEmptyHanded?)
      modifies ring
      ensures InState(m, Take(s, step)) && Take(s, step).delivered == s.delivered
    {
      hide RingSlice;
      var courier := ring.Dequeue();
      match step
      case AskCourier(o) =>
        m := l.(cooking := l.cooking - multiset{o});
        m := if courier.Some? then m.(paired := l.paired + [Delivery(courier.value, o)])
             else m.(unserved := l.unserved + multiset{o});
      case TakeCourier(o) =>
        m := l.(popped := l.popped - multiset{o});
        m := if courier.Some? then m.(paired := l.paired + [Delivery(courier.value, o)]) else m;
      case TakeCourierEmptyHanded =>
        m := l.(emptyHanded := l.emptyHanded - 1);
    }

    method JoinReady(o: Order, l: Locals, ghost s: State) returns (m: Locals)
      requires InState(l, s) && Enabled(s, AddReady(o)) && Fits(s, AddReady(o))
      modifies orders, orders.orders
      ensures InState(m, Take(s, AddReady(o))) && Take(s, AddReady(o)).delivered == s.delivered
    {
      hide RingSlice;
      orders.Add(o);
      m := l.(unserved := l.unserved - multiset{o});
    }

    method PopReady(random: nat, l: Locals, ghost s: State) returns (m: Locals)
      requires InState(l, s) && Enabled(s, PopOrder(random))
      modifies orders, orders.orders
      ensures InState(m, Take(s, PopOrder(random))) && Take(s, PopOrder(random)).delivered == s.delivered
    {
      hide RingSlice, SwapOut;
      var order := orders.PopRandom(random);
      m := l.(arrived := l.arrived - 1);
      m := if order.Some? then m.(popped := l.popped + multiset{order.value}) else m.(emptyHanded := l.emptyHanded + 1);
    }

    method Enter(c: Courier, l: Locals, ghost s: State) returns (m: Locals)
      requires InState(l, s)
      modifies ring, ring.values, targets, targets.couriers
      ensures InState(m, Take(s, Arrive(c))) && Take(s, Arrive(c)).delivered == s.delivered
    {
      hide RingSlice, Take;
      ArriveIs(s, c, Take(s, Arrive(c)));
      ArriveKeepsLocals(s, c);
      JoinPool(c);
      m := l.(arrived := l.arrived + 1);
    }

    /** A pair a thread holds is delivered. */
    method RecordPair(k: nat, l: Locals, now: int, ghost s: State) returns (m: Locals)
      requires InState(l, s) && Enabled(s, Record(k)) && Fits(s, Record(k))
      modifies records, records.courierTimes, records.orderTimes
      ensures InState(m, Take(s, Record(k)))
      ensures Recorded(old(records.courierTimes[..records.courierCount]), old(records.orderTimes[..records.orderCount]),
                       s, Take(s, Record(k)), now)
    {
      hide RingSlice, SwapOut, CourierWaits, OrderWaits;
      OneDelivered(s, Record(k), now);
      DeliverOrder(l.paired[k].courier, l.paired[k].order, now, records);
      m := l.(paired := SwapOut(l.paired, k));
    }

    /** The listener has found a courier's order. */
    method MatchNamed(i: nat, j: nat, l: Locals, now: int, ghost s: State)
      requires InState(l, s) && Enabled(s, Match(i, j)) && Fits(s, Match(i, j))
      modifies targets, targets.couriers, orders, orders.orders, records, records.courierTimes, records.orderTimes
      ensures InState(l, Take(s, Match(i, j)))
      ensures Recorded(old(records.courierTimes[..records.courierCount]), old(records.orderTimes[..records.orderCount]),
                       s, Take(s, Match(i, j)), now)
    {
      hide RingSlice, SwapOut, CourierWaits, OrderWaits;
      OneDelivered(s, Match(i, j), now);
      var d := MatchPools(targets, orders, records, i, j, now);
    }

    /** One section of one thread: the pools and the threads' variables become what the step says. */
    method Perform(step: Step, l: Locals, now: int, ghost s: State) returns (m: Locals)
      requires InState(l, s) && Enabled(s, step) && Fits(s, step)
      modifies ring, ring.values, targets, targets.couriers, orders, orders.orders
      modifies records, records.courierTimes, records.orderTimes
      ensures InState(m, Take(s, step))
      ensures Recorded(old(records.courierTimes[..records.courierCount]), old(records.orderTimes[..records.orderCount]),
                       s, Take(s, step), now)
    {
      hide Take, Enabled, Fits, Shows, LocalsOf;
      match step
      case Record(k) => m := RecordPair(k, l, now, s);
      case Match(i, j) =>
        MatchNamed(i, j, l, now, s);
        m := l;
      case AddReady(o) => m := JoinReady(o, l, s);
      case Arrive(c) => m := Enter(c, l, s);
      case PopOrder(random) => m := PopReady(random, l, s);
      case _ => m := TakeFromRing(step, l, s);
    }

    /** Any interleaving of the threads' sections, step `k` at time `times[k]`, is a run of the state machine. */
    method PerformAll(steps: seq<Step>, times: seq<int>, l: Locals, ghost s: State, ghost input: seq<Order>) returns (m: Locals)
      requires InState(l, s) && Play(s, steps).Some? && |times| == |steps|
      requires Inv(s, input) && |input| <= 1000
      modifies ring, ring.values, targets, targets.couriers, orders, orders.orders
      modifies records, records.courierTimes, records.orderTimes
      ensures InState(m, Play(s, steps).value)
      ensures records.courierTimes[..records.courierCount]
              == old(records.courierTimes[..records.courierCount]) + WaitsOver(s, steps, times).couriers
      ensures records.orderTimes[..records.orderCount]
              == old(records.orderTimes[..records.orderCount]) + WaitsOver(s, steps, times).orders
      decreases |steps|
    {
      hide Take, Enabled, Fits, Shows, LocalsOf, Inv, CourierWaits, OrderWaits;
      if steps == [] {
        return l;
      }
      ghost var t := Take(s, steps[0]);
      StepFits(s, steps[0], input);
      StepKeepsInv(s, steps[0], input);
      var k := Perform(steps[0], l, times[0], s);
      m := PerformAll(steps[1..], times[1..], k, t, input);
    }

    /** The end of `prepare`: a finished order goes to the courier who has waited longest, or to the ready list. */
    method HandOver(order: Order, now: int, ghost s: State) returns (ghost t: State)
      requires Valid() && Shows(s) && order in s.cooking
      requires if s.ring == [] then |s.ready| < ORDER_LIST_SIZE else |s.delivered| < ORDER_LIST_SIZE
      modifies ring, orders, orders.orders, records, records.courierTimes, records.orderTimes
      ensures Valid() && Shows(t) && Play(s, HandOverSteps(s, order)) == Some(t)
      ensures Recorded(old(records.courierTimes[..records.courierCount]), old(records.orderTimes[..records.orderCount]), s, t, now)
    {
      hide Play, HandOverSteps, RingSlice, CourierWaits, OrderWaits;
      HandOverRuns(s, order);
      t := Play(s, HandOverSteps(s, order)).value;
      LogOf(s, t, order, now);
      var courier := ring.Dequeue();
      match courier
      case Some(c) =>
        DeliverOrder(c, order, now, records);
      case None =>
        orders.Add(order);
    }

    method JoinPool(c: Courier)
      requires Valid()
      modifies ring, ring.values, targets, targets.couriers
      ensures Valid()
      ensures ring.Queue() == if c.target == "none" && |old(ring.Queue())| < 1000 then old(ring.Queue()) + [c] else old(ring.Queue())
      ensures targets.Contents() == if c.target != "none" && |old(targets.Contents())| < 1000 then old(targets.Contents()) + [c]
                                    else old(targets.Contents())
    {
      hide RingSlice;
      if c.target == ANYONE {
        ring.Enqueue(c);
      } else {
        targets.Add(c);
      }
    }

    /** Takes an order and a courier out of their pools; they are delivered if both were there. */
    method LeaveTogether(random: nat, now: int) returns (ghost d: Option<Delivery>)
      requires Valid()
      requires orders.count > 0 ==> records.courierCount < COURIER_QUEUE_SIZE && records.orderCount < ORDER_LIST_SIZE
      modifies ring, orders, orders.orders, records, records.courierTimes, records.orderTimes
      ensures Valid()
      ensures var q, w := old(ring.Queue()), old(orders.Contents());
              && ring.Queue() == (if q == [] then [] else q[1..])
              && orders.Contents() == (if w == [] then [] else SwapOut(w, random % |w|))
              && d == if q == [] || w == [] then None else Some(Delivery(q[0], w[random % |w|]))
      ensures var log := if d.None? then [] else [d.value];
              && records.courierTimes[..records.courierCount] == old(records.courierTimes[..records.courierCount]) + CourierWaits(log, now)
              && records.orderTimes[..records.orderCount] == old(records.orderTimes[..records.orderCount]) + OrderWaits(log, now)
    {
      hide RingSlice, SwapOut;
      var order := orders.PopRandom(random);
      var courier := ring.Dequeue();
      d := None;
      if order.Some? && courier.Some? {
        DeliverOrder(courier.value, order.value, now, records);
        d := Some(Delivery(courier.value, order.value));
      }
    }

    /** The end of a courier's way: they join a pool, then some order and the courier who has waited longest leave together. */
    method ArrivalStep(c: Courier, random: nat, now: int, ghost s: State) returns (ghost t: State)
      requires Valid() && Shows(s) && (s.ready != [] ==> |s.delivered| < ORDER_LIST_SIZE)
      modifies ring, ring.values, targets, targets.couriers, orders, orders.orders
      modifies records, records.courierTimes, records.orderTimes
      ensures Valid() && Shows(t) && Play(s, WholeArrival(s, c, random)) == Some(t)
      ensures Recorded(old(records.courierTimes[..records.courierCount]), old(records.orderTimes[..records.orderCount]), s, t, now)
    {
      hide Play, WholeArrival, SwapOut, RingSlice;
      WholeArrivalRuns(s, c, random);
      t := Play(s, WholeArrival(s, c, random)).value;
      JoinPool(c);
      ghost var d := LeaveTogether(random, now);
      assert t.delivered[|s.delivered|..] == if d.None? then [] else [d.value];
    }

    /** One sweep of the listener. */
    method Listen(now: int, ghost s: State) returns (ghost t: State)
      requires Valid() && Shows(s) && |s.ready| + |s.delivered| <= ORDER_LIST_SIZE
      modifies targets, targets.couriers, orders, orders.orders, records, records.courierTimes, records.orderTimes
      ensures Valid() && Shows(t) && Play(s, SweepSteps(Pooled(s), 0)) == Some(t)
      ensures Recorded(old(records.courierTimes[..records.courierCount]), old(records.orderTimes[..records.orderCount]), s, t, now)
    {
      SweepIsRun(s, 0);
      ghost var q := SweepFrom(Waiting(s.targeted, s.ready, []), 0);
      SweepExtends(Waiting(s.targeted, s.ready, []), 0, s.delivered);
      assert s.delivered + [] == s.delivered;
      t := s.(targeted := q.couriers, ready := q.orders, delivered := s.delivered + q.log);
      var log := SweepPools(targets, orders, records, now);
    }
  }

  // --- What single steps do ---

  lemma ArriveKeepsLocals(s: State, c: Courier)
    ensures LocalsOf(Take(s, Arrive(c))) == LocalsOf(s).(arrived := s.arrived + 1)
  {
  }

  lemma OneDelivered(s: State, step: Step, now: int)
    requires Enabled(s, step) && (step.Record? || step.Match?)
    ensures var t, d := Take(s, step), if step.Record? then s.paired[step.k] else Delivery(s.targeted[step.i], s.ready[step.j]);
            var log := t.delivered[|s.delivered|..];
            && t.delivered == s.delivered + [d] && log == [d]
            && CourierWaits(log, now) == [now - d.courier.arrivedAt] && OrderWaits(log, now) == [now - d.order.readyAt]
  {
  }

  /** The waiting times of what a hand-over delivers. */
  lemma LogOf(s: State, t: State, o: Order, now: int)
    requires t.delivered == if s.ring == [] then s.delivered else s.delivered + [Delivery(s.ring[0], o)]
    ensures var log := t.delivered[|s.delivered|..];
            && CourierWaits(log, now) == (if s.ring == [] then [] else [now - s.ring[0].arrivedAt])
            && OrderWaits(log, now) == (if s.ring == [] then [] else [now - o.readyAt])
  {
  }

  /** The waiting times of couriers and of orders. */
  datatype Waits = Waits(couriers: seq<int>, orders: seq<int>)

  /** The waiting times of all that a run delivers, delivery by delivery. */
  function WaitsOver(s: State, steps: seq<Step>, times: seq<int>): Waits
    requires Play(s, steps).Some? && |times| == |steps|
    decreases |steps|
  {
    if steps == [] then Waits([], [])
    else
      var t := Take(s, steps[0]);
      StepOnlyAdds(s, steps[0]);
      var log, rest := t.delivered[|s.delivered|..], WaitsOver(t, steps[1..], times[1..]);
      Waits(CourierWaits(log, times[0]) + rest.couriers, OrderWaits(log, times[0]) + rest.orders)
  }

  // --- The steps of each method ---

  function HandOverSteps(s: State, o: Order): seq<Step> {
    if s.ring == [] then [AskCourier(o), AddReady(o)] else [AskCourier(o), Record(|s.paired|)]
  }

  /** The pools after a hand-over. */
  lemma HandOverRuns(s: State, o: Order)
    requires o in s.cooking
    ensures Play(s, HandOverSteps(s, o)).Some?
    ensures var t := Play(s, HandOverSteps(s, o)).value;
            && t.targeted == s.targeted && t.paired == s.paired
            && t.ring == (if s.ring == [] then [] else s.ring[1..])
            && t.ready == (if s.ring == [] then s.ready + [o] else s.ready)
            && t.delivered == if s.ring == [] then s.delivered else s.delivered + [Delivery(s.ring[0], o)]
  {
    hide Play;
    if s.ring == [] {
      RunTwo(s, AskCourier(o), AddReady(o));
    } else {
      RunTwo(s, AskCourier(o), Record(|s.paired|));
    }
  }

  function WholeArrival(s: State, c: Courier, random: nat): seq<Step> {
    ArrivalSteps(s, c, random)
    + if s.ready == [] || (s.ring == [] && c.target != ANYONE) then [] else [Record(|s.paired|)]
  }

  lemma RecordLast(s: State, k: nat)
    requires |s.paired| == k + 1
    ensures Play(s, [Record(k)]) == Some(s.(paired := s.paired[..k], delivered := s.delivered + [s.paired[k]]))
  {
  }

  /** The pools after an arrival. */
  lemma WholeArrivalRuns(s: State, c: Courier, random: nat)
    ensures Play(s, WholeArrival(s, c, random)).Some?
    ensures var t := Play(s, WholeArrival(s, c, random)).value;
            var met := if c.target == ANYONE then Bounded(s.ring, c, COURIER_QUEUE_SIZE) else s.ring;
            && t.targeted == (if c.target == ANYONE then s.targeted else Bounded(s.targeted, c, COURIER_QUEUE_SIZE))
            && t.paired == s.paired
            && t.ring == (if met == [] then [] else met[1..])
            && t.ready == (if s.ready == [] then [] else SwapOut(s.ready, random % |s.ready|))
            && t.delivered == if met == [] || s.ready == [] then s.delivered
                              else s.delivered + [Delivery(met[0], s.ready[random % |s.ready|])]
  {
    hide Play, Take, SwapOut, ArrivalSteps;
    var steps := ArrivalSteps(s, c, random);
    ArriveIs(s, c, Take(s, Arrive(c)));
    ArrivalIs(s, c, random);
    if s.ready == [] || (s.ring == [] && c.target != ANYONE) {
      assert WholeArrival(s, c, random) == steps;
    } else {
      RunsCompose(s, steps, [Record(|s.paired|)]);
      RecordLast(Play(s, steps).value, |s.paired|);
    }
  }

  /** What was delivered before a sweep stays in front. */
  lemma {:induction false} SweepExtends(p: Waiting, i: nat, before: seq<Delivery>)
    ensures var q := SweepFrom(p, i);
            SweepFrom(p.(log := before + p.log), i) == q.(log := before + q.log)
    decreases |p.couriers| - i
  {
    if i < |p.couriers| {
      match FirstNamed(p.orders, p.couriers[i].target)
      case None => SweepExtends(p, i + 1, before);
      case Some(j) =>
        MatchedSizes(p, i, j);
        var d := [Delivery(p.couriers[i], p.orders[j])];
        assert before + p.log + d == before + (p.log + d);
        SweepExtends(Matched(p, i, j), i + 1, before);
    }
  }

  /** Every state that at most 1000 orders lead to has the room each of the methods asks for. */
  lemma ThreadsHaveRoom(orders: seq<Order>, steps: seq<Step>)
    requires |orders| <= 1000 && Play(Init(orders), steps).Some?
    ensures var t := Play(Init(orders), steps).value;
            && |t.ready| + |t.delivered| <= 1000
            && (t.ready != [] ==> |t.delivered| < 1000)
            && forall o :: o in t.cooking ==> if t.ring == [] then |t.ready| < 1000 else |t.delivered| < 1000
  {
    var t := Play(Init(orders), steps).value;
    ReachableInv(orders, steps);
    ReachableSizes(t, orders);
    forall o | o in t.cooking
      ensures if t.ring == [] then |t.ready| < 1000 else |t.delivered| < 1000
    {
      hide Init;
      RunsCompose(Init(orders), steps, [AskCourier(o)]);
      assert [AskCourier(o)][1..] == [];
      NeverOverflows(orders, steps + [AskCourier(o)]);
      AskRoom(t, o);
    }
  }

  lemma AskRoom(t: State, o: Order)
    requires o in t.cooking && HasRoom(Take(t, AskCourier(o)))
    ensures if t.ring == [] then |t.ready| < 1000 else |t.delivered| < 1000
  {
    var u, next := Take(t, AskCourier(o)), if t.ring == [] then AddReady(o) else Record(|t.paired|);
    assert Enabled(u, next) && Fits(u, next);
  }
}
