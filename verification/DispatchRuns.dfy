/** What holds in every state a run of the dispatcher can reach, and what a run can lose. */
module DispatchRuns {
  import opened Bytes
  import opened Items
  import opened Pools
  import opened Sweep
  import opened Dispatch

  // --- Every reachable state ---

  lemma ReachableInv(orders: seq<Order>, steps: seq<Step>)
    requires Play(Init(orders), steps).Some?
    ensures Inv(Play(Init(orders), steps).value, orders)
  {
    InitInv(orders);
    RunKeepsInv(Init(orders), steps, orders);
  }

  lemma CountOfDistinct<T>(s: seq<T>, x: T)
    requires forall i, j :: 0 <= i < j < |s| ==> s[i] != s[j]
    ensures multiset(s)[x] == if x in s then 1 else 0
  {
    if s != [] {
      assert s == [s[0]] + s[1..];
      CountOfDistinct(s[1..], x);
    }
  }

  lemma CountOfTwice<T>(s: seq<T>, i: nat, j: nat)
    requires i < j < |s|
    ensures s[i] == s[j] ==> multiset(s)[s[i]] >= 2
  {
    assert s == s[..j] + [s[j]] + s[j + 1..];
    assert s[i] in s[..j];
  }

  /** Over every run each order is in exactly one place, and no order is delivered twice. */
  lemma EveryOrderInOnePlace(orders: seq<Order>, steps: seq<Step>)
    requires forall i, j :: 0 <= i < j < |orders| ==> orders[i] != orders[j]
    requires Play(Init(orders), steps).Some?
    ensures var t := Play(Init(orders), steps).value;
            && (forall o :: Places(t, o) == if o in orders then 1 else 0)
            && (forall i, j :: 0 <= i < j < |t.delivered| ==> t.delivered[i].order != t.delivered[j].order)
  {
    var t := Play(Init(orders), steps).value;
    ReachableInv(orders, steps);
    forall o: Order
      ensures Places(t, o) == if o in orders then 1 else 0
    {
      CountOfDistinct(orders, o);
    }
    forall i, j | 0 <= i < j < |t.delivered|
      ensures t.delivered[i].order != t.delivered[j].order
    {
      CountOfTwice(Orders(t.delivered), i, j);
      assert Places(t, Orders(t.delivered)[i]) <= 1;
    }
  }

  // --- Who delivers what ---

  /** A courier stands in the pool meant for them, and delivers only what they may take. */
  ghost predicate Entitled(s: State) {
    && (forall i :: 0 <= i < |s.ring| ==> s.ring[i].target == ANYONE)
    && (forall i :: 0 <= i < |s.paired| ==> s.paired[i].courier.target == ANYONE)
    && (forall i :: 0 <= i < |s.targeted| ==> s.targeted[i].target != ANYONE)
    && (forall i :: 0 <= i < |s.delivered| ==> MayDeliver(s.delivered[i]))
  }

  predicate MayDeliver(d: Delivery) {
    d.courier.target == ANYONE || d.courier.target == d.order.name
  }

  lemma HandOverKeepsEntitled(s: State, step: Step)
    requires Entitled(s) && Enabled(s, step) && (step.AskCourier? || step.TakeCourier? || step.TakeCourierEmptyHanded?)
    ensures Entitled(Take(s, step))
  {
  }

  lemma RecordKeepsEntitled(s: State, step: Step)
    requires Entitled(s) && Enabled(s, step) && step.Record?
    ensures Entitled(Take(s, step))
  {
  }

  lemma MatchKeepsEntitled(s: State, step: Step)
    requires Entitled(s) && Enabled(s, step) && step.Match?
    ensures Entitled(Take(s, step))
  {
  }

  lemma StepKeepsEntitled(s: State, step: Step)
    requires Entitled(s) && Enabled(s, step)
    ensures Entitled(Take(s, step))
  {
    hide SwapOut, MayDeliver;
    match step
    case Record(_) => RecordKeepsEntitled(s, step);
    case Match(_, _) => MatchKeepsEntitled(s, step);
    case AddReady(_) =>
    case Arrive(_) =>
    case PopOrder(_) =>
    case _ => HandOverKeepsEntitled(s, step);
  }

  lemma {:induction false} RunKeepsEntitled(s: State, steps: seq<Step>)
    requires Entitled(s) && Play(s, steps).Some?
    ensures Entitled(Play(s, steps).value)
    decreases |steps|
  {
    hide Entitled, Take;
    if steps != [] {
      StepKeepsEntitled(s, steps[0]);
      RunKeepsEntitled(Take(s, steps[0]), steps[1..]);
    }
  }

  /** Whoever delivers an order asked for it by name, or for any order. */
  lemma OnlyEntitledDeliveries(orders: seq<Order>, steps: seq<Step>, i: nat)
    requires Play(Init(orders), steps).Some? && i < |Play(Init(orders), steps).value.delivered|
    ensures var d := Play(Init(orders), steps).value.delivered[i];
            d.courier.target == "none" || d.courier.target == d.order.name
  {
    RunKeepsEntitled(Init(orders), steps);
  }

  // --- Room in the fixed arrays ---

  /** The arrays that a step writes to without a check have room. */
  predicate Fits(s: State, step: Step) {
    match step
    case AddReady(_) => |s.ready| < ORDER_LIST_SIZE
    case Record(_) => |s.delivered| < ORDER_LIST_SIZE && |s.delivered| < COURIER_QUEUE_SIZE
    case Match(_, _) => |s.delivered| < ORDER_LIST_SIZE && |s.delivered| < COURIER_QUEUE_SIZE
    case _ => true
  }

  /** No step that is possible next writes past the end of the ready list or of the time records. */
  ghost predicate HasRoom(s: State) {
    forall step :: Enabled(s, step) ==> Fits(s, step)
  }

  lemma SmallerMultiset<T>(a: multiset<T>, b: multiset<T>)
    requires forall x :: a[x] <= b[x]
    ensures |a| <= |b|
  {
    assert b == a + (b - a);
  }

  lemma ReachableSizes(s: State, orders: seq<Order>)
    requires Inv(s, orders)
    ensures |s.unserved| + |s.ready| + |s.paired| + |s.delivered| <= |orders|
  {
    var a, b, c, d := s.unserved, multiset(s.ready), multiset(Orders(s.paired)), multiset(Orders(s.delivered));
    forall o
      ensures (a + b + c + d)[o] <= multiset(orders)[o]
    {
      assert Places(s, o) == multiset(orders)[o];
    }
    SmallerMultiset(a + b + c + d, multiset(orders));
  }

  /** A state of at most 1000 orders has room for every step that is possible. */
  lemma StepFits(s: State, step: Step, orders: seq<Order>)
    requires Inv(s, orders) && |orders| <= 1000 && Enabled(s, step)
    ensures Fits(s, step)
  {
    ReachableSizes(s, orders);
    hide Inv;
    if step.AddReady? {
      assert s.unserved == (s.unserved - multiset{step.order}) + multiset{step.order};
    }
  }

  /** With at most 1000 orders nothing ever overflows, whatever couriers arrive and however the steps interleave. */
  lemma NeverOverflows(orders: seq<Order>, steps: seq<Step>)
    requires |orders| <= 1000 && Play(Init(orders), steps).Some?
    ensures HasRoom(Play(Init(orders), steps).value)
  {
    var t := Play(Init(orders), steps).value;
    ReachableInv(orders, steps);
    hide Inv, Enabled, Fits, Play;
    forall step | Enabled(t, step)
      ensures Fits(t, step)
    {
      StepFits(t, step, orders);
    }
  }

  /** Kitchen threads that find no courier, one after another. */
  function FillReady(orders: seq<Order>): (steps: seq<Step>)
    ensures |steps| == 2 * |orders|
  {
    if orders == [] then [] else [AskCourier(orders[0]), AddReady(orders[0])] + FillReady(orders[1..])
  }

  /** A kitchen thread that finds no courier makes its order ready. */
  lemma AskThenAdd(s: State, o: Order)
    requires s.ring == [] && o in s.cooking
    ensures Enabled(s, AskCourier(o)) && Enabled(Take(s, AskCourier(o)), AddReady(o))
    ensures Take(Take(s, AskCourier(o)), AddReady(o)) == s.(cooking := s.cooking - multiset{o}, ready := s.ready + [o])
  {
  }

  lemma FirstTaken(cooking: multiset<Order>, orders: seq<Order>)
    requires orders != [] && multiset(orders) <= cooking
    ensures orders[0] in cooking && multiset(orders[1..]) <= cooking - multiset{orders[0]}
    ensures cooking - multiset{orders[0]} - multiset(orders[1..]) == cooking - multiset(orders)
  {
    assert orders == [orders[0]] + orders[1..];
  }

  /** The first order of many is made ready. */
  lemma FillsOne(s: State, orders: seq<Order>)
    requires s.ring == [] && orders != [] && orders[0] in s.cooking
    ensures Play(s, FillReady(orders))
            == Play(s.(cooking := s.cooking - multiset{orders[0]}, ready := s.ready + [orders[0]]), FillReady(orders[1..]))
  {
    hide Take, Enabled;
    var o, steps := orders[0], FillReady(orders);
    AskThenAdd(s, o);
    assert steps[0] == AskCourier(o) && steps[1..][0] == AddReady(o) && steps[1..][1..] == FillReady(orders[1..]);
    assert Play(s, steps) == Play(Take(s, AskCourier(o)), steps[1..]);
  }

  lemma FillsNone(s: State)
    ensures Play(s, FillReady([])) == Some(s) && s.cooking - multiset([]) == s.cooking && s.ready + [] == s.ready
  {
  }

  lemma {:induction false} FillReadyRuns(s: State, orders: seq<Order>)
    requires s.ring == [] && multiset(orders) <= s.cooking
    ensures Play(s, FillReady(orders)) == Some(s.(cooking := s.cooking - multiset(orders), ready := s.ready + orders))
    decreases |orders|
  {
    hide Play, FillReady;
    if orders == [] {
      FillsNone(s);
    } else {
      FirstTaken(s.cooking, orders);
      FillsOne(s, orders);
      var t := s.(cooking := s.cooking - multiset{orders[0]}, ready := s.ready + [orders[0]]);
      FillReadyRuns(t, orders[1..]);
      assert s.ready + [orders[0]] + orders[1..] == s.ready + orders;
    }
  }

  lemma {:induction false} RunsCompose(s: State, a: seq<Step>, b: seq<Step>)
    requires Play(s, a).Some?
    ensures Play(s, a + b) == Play(Play(s, a).value, b)
    decreases |a|
  {
    hide Take;
    if a == [] {
      assert a + b == b;
    } else {
      assert (a + b)[0] == a[0] && (a + b)[1..] == a[1..] + b;
      RunsCompose(Take(s, a[0]), a[1..], b);
    }
  }

  lemma FirstThenNext(orders: seq<Order>, n: nat)
    requires n < |orders|
    ensures multiset(orders[..n]) <= multiset(orders) && orders[n] in multiset(orders) - multiset(orders[..n])
  {
    assert orders == orders[..n] + [orders[n]] + orders[n + 1..];
  }

  /** With a full ready list, the next order that finds no courier has no room. */
  lemma AskFillsUp(s: State, o: Order)
    requires s.ring == [] && o in s.cooking && |s.ready| >= 1000
    ensures Play(s, [AskCourier(o)]).Some? && !HasRoom(Play(s, [AskCourier(o)]).value)
  {
    var t := Take(s, AskCourier(o));
    assert [AskCourier(o)][1..] == [] && Play(t, []) == Some(t);
    assert Enabled(t, AddReady(o)) && !Fits(t, AddReady(o));
  }

  /** With more orders than the list has room for, and no courier in time, the next order is written past its end. */
  lemma CanOverflow(orders: seq<Order>)
    requires |orders| > 1000
    ensures exists steps :: Play(Init(orders), steps).Some? && !HasRoom(Play(Init(orders), steps).value)
  {
    hide Play;
    var first, o := orders[..1000], orders[1000];
    FirstThenNext(orders, 1000);
    FillReadyRuns(Init(orders), first);
    var t := Play(Init(orders), FillReady(first)).value;
    AskFillsUp(t, o);
    RunsCompose(Init(orders), FillReady(first), [AskCourier(o)]);
    assert !HasRoom(Play(Init(orders), FillReady(first) + [AskCourier(o)]).value);
  }

  /** Exactly the files of at most 1000 orders are safe. */
  lemma SafeIffOrdersFit(orders: seq<Order>)
    ensures (forall steps :: Play(Init(orders), steps).Some? ==> HasRoom(Play(Init(orders), steps).value))
            <==> |orders| <= 1000
  {
    hide Play, HasRoom, Init;
    if |orders| <= 1000 {
      forall steps | Play(Init(orders), steps).Some?
        ensures HasRoom(Play(Init(orders), steps).value)
      {
        NeverOverflows(orders, steps);
      }
    } else {
      CanOverflow(orders);
    }
  }

  // --- What an arrival loses ---

  lemma StepOnlyAdds(s: State, step: Step)
    requires Enabled(s, step)
    ensures var t := Take(s, step);
            s.delivered <= t.delivered && s.lostOrders <= t.lostOrders && s.lostCouriers <= t.lostCouriers
  {
  }

  /** Deliveries and losses only grow. */
  lemma {:induction false} RunOnlyAdds(s: State, steps: seq<Step>)
    requires Play(s, steps).Some?
    ensures var t := Play(s, steps).value;
            s.delivered <= t.delivered && s.lostOrders <= t.lostOrders && s.lostCouriers <= t.lostCouriers
    decreases |steps|
  {
    hide Take, Enabled;
    if steps != [] {
      StepOnlyAdds(s, steps[0]);
      RunOnlyAdds(Take(s, steps[0]), steps[1..]);
    }
  }

  /** A lost order is never delivered, however the run goes on. */
  lemma LostForGood(orders: seq<Order>, past: seq<Step>, future: seq<Step>, o: Order)
    requires forall i, j :: 0 <= i < j < |orders| ==> orders[i] != orders[j]
    requires Play(Init(orders), past + future).Some?
    requires Play(Init(orders), past).Some? && o in Play(Init(orders), past).value.lostOrders
    ensures forall i :: 0 <= i < |Play(Init(orders), past + future).value.delivered| ==>
              Play(Init(orders), past + future).value.delivered[i].order != o
  {
    var s, t := Play(Init(orders), past).value, Play(Init(orders), past + future).value;
    RunsCompose(Init(orders), past, future);
    RunOnlyAdds(s, future);
    EveryOrderInOnePlace(orders, past + future);
    assert Places(t, o) <= 1 && o !in Orders(t.delivered);
    forall i | 0 <= i < |t.delivered|
      ensures t.delivered[i].order != o
    {
      assert t.delivered[i].order == Orders(t.delivered)[i];
    }
  }

  /** The arrival thread's sections, with no other thread in between. */
  function ArrivalSteps(s: State, c: Courier, random: nat): seq<Step> {
    if s.ready == [] then [Arrive(c), PopOrder(random), TakeCourierEmptyHanded]
    else [Arrive(c), PopOrder(random), TakeCourier(s.ready[random % |s.ready|])]
  }

  lemma RunTwo(s: State, a: Step, b: Step)
    requires Enabled(s, a) && Enabled(Take(s, a), b)
    ensures Play(s, [a, b]) == Some(Take(Take(s, a), b))
  {
    hide Take, Enabled;
    assert [a, b][1..] == [b] && [b][1..] == [];
    assert Play(Take(Take(s, a), b), []) == Some(Take(Take(s, a), b));
    assert Play(Take(s, a), [b]) == Some(Take(Take(s, a), b));
  }

  lemma RunThree(s: State, a: Step, b: Step, c: Step)
    requires Enabled(s, a) && Enabled(Take(s, a), b) && Enabled(Take(Take(s, a), b), c)
    ensures Play(s, [a, b, c]) == Some(Take(Take(Take(s, a), b), c))
  {
    hide Take, Enabled;
    var steps, u := [a, b, c], Take(Take(s, a), b);
    assert steps[1..] == [b, c] && [b, c][1..] == [c] && [c][1..] == [];
    assert Play(Take(u, c), []) == Some(Take(u, c));
    assert Play(u, [c]) == Some(Take(u, c));
    assert Play(Take(s, a), [b, c]) == Play(u, [c]);
  }

  lemma ArriveIs(s: State, c: Courier, t: State)
    requires t == Take(s, Arrive(c))
    ensures var full := if c.target == ANYONE then |s.ring| >= COURIER_QUEUE_SIZE else |s.targeted| >= COURIER_QUEUE_SIZE;
            && t.arrived > 0 && t.ready == s.ready && t.lostOrders == s.lostOrders
            && t.paired == s.paired && t.delivered == s.delivered
            && t.targeted == (if c.target == ANYONE then s.targeted else Bounded(s.targeted, c, COURIER_QUEUE_SIZE))
            && t.ring == (if c.target == ANYONE then Bounded(s.ring, c, COURIER_QUEUE_SIZE) else s.ring)
            && t.lostCouriers == if full then s.lostCouriers + multiset{c} else s.lostCouriers
  {
  }

  /** The two sections of an arrival that finds no order. */
  lemma FindsNoOrder(s: State, random: nat)
    requires s.arrived > 0 && s.ready == []
    ensures Enabled(s, PopOrder(random)) && Enabled(Take(s, PopOrder(random)), TakeCourierEmptyHanded)
    ensures var t := Take(Take(s, PopOrder(random)), TakeCourierEmptyHanded);
              && t.lostOrders == s.lostOrders && t.ready == [] && t.targeted == s.targeted
              && t.paired == s.paired && t.delivered == s.delivered
              && t.ring == (if s.ring == [] then [] else s.ring[1..])
              && t.lostCouriers == if s.ring == [] then s.lostCouriers else s.lostCouriers + multiset{s.ring[0]}
  {
  }

  /** The two sections of an arrival that finds one. */
  lemma FindsOrder(s: State, random: nat, o: Order)
    requires s.arrived > 0 && s.ready != [] && o == s.ready[random % |s.ready|]
    ensures Enabled(s, PopOrder(random)) && Enabled(Take(s, PopOrder(random)), TakeCourier(o))
    ensures var t := Take(Take(s, PopOrder(random)), TakeCourier(o));
              && t.lostOrders == (if s.ring == [] then s.lostOrders + multiset{o} else s.lostOrders)
              && t.ring == (if s.ring == [] then [] else s.ring[1..])
              && t.lostCouriers == s.lostCouriers && t.targeted == s.targeted && t.delivered == s.delivered
              && t.ready == SwapOut(s.ready, random % |s.ready|)
              && t.paired == if s.ring == [] then s.paired else s.paired + [Delivery(s.ring[0], o)]
  {
  }

  lemma MoreThan<T>(m: multiset<T>, x: T, y: T)
    ensures m + multiset{x} != m && m + multiset{x} + multiset{y} != m
  {
  }

  /** What an arrival that runs through does to the pools and to the losses, in terms of the state once the courier has come. */
  lemma ArrivalIs(s: State, c: Courier, random: nat)
    ensures Play(s, ArrivalSteps(s, c, random)).Some?
    ensures var met, t := Take(s, Arrive(c)), Play(s, ArrivalSteps(s, c, random)).value;
            && t.ring == (if met.ring == [] then [] else met.ring[1..])
            && t.targeted == met.targeted && t.delivered == s.delivered
            && t.ready == (if s.ready == [] then [] else SwapOut(s.ready, random % |s.ready|))
            && t.paired == (if s.ready == [] || met.ring == [] then s.paired
                            else s.paired + [Delivery(met.ring[0], s.ready[random % |s.ready|])])
            && t.lostOrders == (if s.ready != [] && met.ring == [] then met.lostOrders + multiset{s.ready[random % |s.ready|]}
                                else met.lostOrders)
            && t.lostCouriers == if s.ready == [] && met.ring != [] then met.lostCouriers + multiset{met.ring[0]}
                                 else met.lostCouriers
  {
    hide Play, Take, SwapOut;
    var met := Take(s, Arrive(c));
    ArriveIs(s, c, met);
    if s.ready == [] {
      FindsNoOrder(met, random);
      RunThree(s, Arrive(c), PopOrder(random), TakeCourierEmptyHanded);
    } else {
      var o := s.ready[random % |s.ready|];
      FindsOrder(met, random, o);
      RunThree(s, Arrive(c), PopOrder(random), TakeCourier(o));
    }
  }

  /**
   * An arrival that runs through loses an order exactly when one is ready, nobody waits in the ring and the courier
   * has come for a named order.
   */
  lemma ArrivalLosesOrderIff(s: State, c: Courier, random: nat)
    ensures Play(s, ArrivalSteps(s, c, random)).Some?
    ensures Play(s, ArrivalSteps(s, c, random)).value.lostOrders != s.lostOrders
            <==> s.ready != [] && s.ring == [] && c.target != "none"
  {
    hide Play, Take, ArrivalSteps;
    ArriveIs(s, c, Take(s, Arrive(c)));
    ArrivalIs(s, c, random);
    if s.ready != [] {
      MoreThan(s.lostOrders, s.ready[random % |s.ready|], NO_ORDER);
    }
  }

  /**
   * It loses a courier exactly when the courier's pool is full, or no order is ready and the ring is not empty once
   * the courier has come; and it never leaves more couriers in the ring than it found there.
   */
  lemma ArrivalLosesCourierIff(s: State, c: Courier, random: nat)
    requires |s.ring| <= 1000 && |s.targeted| <= 1000
    ensures Play(s, ArrivalSteps(s, c, random)).Some?
    ensures var t := Play(s, ArrivalSteps(s, c, random)).value;
            && |t.ring| <= |s.ring|
            && (t.lostCouriers != s.lostCouriers <==>
                  || (if c.target == "none" then |s.ring| == 1000 else |s.targeted| == 1000)
                  || (s.ready == [] && (s.ring != [] || c.target == "none")))
  {
    hide Play, Take, ArrivalSteps;
    var met := Take(s, Arrive(c));
    ArriveIs(s, c, met);
    ArrivalIs(s, c, random);
    var next := if met.ring == [] then c else met.ring[0];
    MoreThan(s.lostCouriers, c, next);
    MoreThan(s.lostCouriers, next, c);
  }

  // --- Nobody ever waits for any order ---

  /** The ring holds no more couriers than there are arrival threads still about to take one out. */
  predicate Attended(s: State) {
    |s.ring| <= s.arrived + |s.popped| + s.emptyHanded
  }

  lemma StepKeepsAttended(s: State, step: Step)
    requires Attended(s) && Enabled(s, step)
    ensures Attended(Take(s, step))
  {
    if step.TakeCourier? {
      assert s.popped == (s.popped - multiset{step.order}) + multiset{step.order};
    }
  }

  lemma {:induction false} RunKeepsAttended(s: State, steps: seq<Step>)
    requires Attended(s) && Play(s, steps).Some?
    ensures Attended(Play(s, steps).value)
    decreases |steps|
  {
    hide Attended, Take;
    if steps != [] {
      StepKeepsAttended(s, steps[0]);
      RunKeepsAttended(Take(s, steps[0]), steps[1..]);
    }
  }

  /** No arrival thread is between two of its sections. */
  predicate AtRest(s: State) {
    s.arrived == 0 && s.popped == multiset{} && s.emptyHanded == 0
  }

  // --- How many orders a run loses ---

  /** Arrival threads that no courier in the ring is there for. */
  function Unattended(s: State): int {
    s.arrived + |s.popped| + s.emptyHanded - |s.ring|
  }

  /**
   * A step that leaves one more arrival thread without a courier: a named arrival, a drop at a full ring, a hand-over
   * by `prepare`.
   */
  predicate LeavesOneMore(s: State, step: Step) {
    || (step.Arrive? && (step.courier.target != "none" || |s.ring| >= 1000))
    || (step.AskCourier? && s.ring != [])
  }

  /** An arrival thread that has no order either finds no courier. */
  predicate Misses(s: State, step: Step) {
    step.TakeCourierEmptyHanded? && s.ring == []
  }

  /** How many steps of a run leave one more arrival thread without a courier. */
  function CountLeft(s: State, steps: seq<Step>): nat
    requires Play(s, steps).Some?
    decreases |steps|
  {
    if steps == [] then 0
    else (if LeavesOneMore(s, steps[0]) then 1 else 0) + CountLeft(Take(s, steps[0]), steps[1..])
  }

  function CountMissed(s: State, steps: seq<Step>): nat
    requires Play(s, steps).Some?
    decreases |steps|
  {
    if steps == [] then 0
    else (if Misses(s, steps[0]) then 1 else 0) + CountMissed(Take(s, steps[0]), steps[1..])
  }

  lemma PoppedOneLess(popped: multiset<Order>, o: Order)
    requires o in popped
    ensures |popped - multiset{o}| == |popped| - 1
  {
    assert popped == (popped - multiset{o}) + multiset{o};
  }

  lemma TakeCourierCounts(s: State, o: Order)
    requires o in s.popped
    ensures var t := Take(s, TakeCourier(o)); Unattended(t) + |t.lostOrders| == Unattended(s) + |s.lostOrders|
  {
    PoppedOneLess(s.popped, o);
  }

  lemma ArriveCounts(s: State, c: Courier)
    ensures var t := Take(s, Arrive(c));
            Unattended(t) + |t.lostOrders| == Unattended(s) + |s.lostOrders| + (if LeavesOneMore(s, Arrive(c)) then 1 else 0)
  {
  }

  lemma StepCounts(s: State, step: Step)
    requires Enabled(s, step)
    ensures var t := Take(s, step);
            Unattended(t) + |t.lostOrders| + (if Misses(s, step) then 1 else 0)
            == Unattended(s) + |s.lostOrders| + (if LeavesOneMore(s, step) then 1 else 0)
  {
    match step
    case TakeCourier(o) => TakeCourierCounts(s, o);
    case Arrive(c) => ArriveCounts(s, c);
    case _ =>
  }

  /** Each arrival thread left without a courier loses its order, finds none to lose, or is still under way. */
  lemma {:induction false} RunCounts(s: State, steps: seq<Step>)
    requires Play(s, steps).Some?
    ensures var t := Play(s, steps).value;
            Unattended(t) + |t.lostOrders| + CountMissed(s, steps) == Unattended(s) + |s.lostOrders| + CountLeft(s, steps)
    decreases |steps|
  {
    hide Take, Unattended, LeavesOneMore, Misses;
    if steps != [] {
      StepCounts(s, steps[0]);
      RunCounts(Take(s, steps[0]), steps[1..]);
    }
  }

  /**
   * Over every run, no more orders are lost than there were named arrivals, drops at a full ring and hand-overs by
   * `prepare`, less the arrival threads that found neither order nor courier; at rest exactly so many are.
   */
  lemma OrdersLostOverRun(orders: seq<Order>, steps: seq<Step>)
    requires Play(Init(orders), steps).Some?
    ensures var s, t := Init(orders), Play(Init(orders), steps).value;
            && |t.lostOrders| + CountMissed(s, steps) <= CountLeft(s, steps)
            && (AtRest(t) ==> |t.lostOrders| + CountMissed(s, steps) == CountLeft(s, steps))
  {
    RunCounts(Init(orders), steps);
    RunKeepsAttended(Init(orders), steps);
    hide Play, CountLeft, CountMissed;
  }

  /** Over every run, the ring is empty whenever no arrival is under way: no courier for any order ever waits. */
  lemma RingEmptyAtRest(orders: seq<Order>, steps: seq<Step>)
    requires Play(Init(orders), steps).Some? && AtRest(Play(Init(orders), steps).value)
    ensures Play(Init(orders), steps).value.ring == []
  {
    RunKeepsAttended(Init(orders), steps);
  }

  /**
   * An uninterrupted arrival at rest: a courier for any order leaves at once, with an order if one is ready, and is
   * lost exactly if none is; a courier for a named order joins the pool, or is lost exactly if it is full, and makes
   * the ready order that is picked get lost.
   */
  lemma ArrivalAtRest(orders: seq<Order>, steps: seq<Step>, c: Courier, random: nat)
    requires Play(Init(orders), steps).Some? && AtRest(Play(Init(orders), steps).value)
    ensures var s := Play(Init(orders), steps).value; Play(s, ArrivalSteps(s, c, random)).Some?
    ensures var s := Play(Init(orders), steps).value;
            var t := Play(s, ArrivalSteps(s, c, random)).value;
            && t.ring == []
            && (if c.target == "none" then
                  if s.ready == [] then t.lostCouriers == s.lostCouriers + multiset{c} && t.paired == s.paired
                  else t.lostCouriers == s.lostCouriers && t.paired == s.paired + [Delivery(c, s.ready[random % |s.ready|])]
                else
                  t.paired == s.paired && (t.lostCouriers != s.lostCouriers <==> |s.targeted| == 1000))
            && (t.lostOrders != s.lostOrders <==> s.ready != [] && c.target != "none")
  {
    var s := Play(Init(orders), steps).value;
    RingEmptyAtRest(orders, steps);
    ReachableInv(orders, steps);
    hide Play, Take, ArrivalSteps, Init;
    ArriveIs(s, c, Take(s, Arrive(c)));
    ArrivalIs(s, c, random);
    ArrivalLosesOrderIff(s, c, random);
    MoreThan(s.lostCouriers, c, c);
  }

  /** With any order at all, some run loses one. */
  lemma SomeRunLosesAnOrder(orders: seq<Order>)
    requires orders != []
    ensures exists steps :: Play(Init(orders), steps).Some? && Play(Init(orders), steps).value.lostOrders != multiset{}
  {
    var first, c := orders[..1], Courier(0, "somebody else", 0);
    assert orders == first + orders[1..];
    FillReadyRuns(Init(orders), first);
    var ready := FillReady(first);
    var s := Play(Init(orders), ready).value;
    ArrivalLosesOrderIff(s, c, 0);
    RunsCompose(Init(orders), ready, ArrivalSteps(s, c, 0));
    assert Play(Init(orders), ready + ArrivalSteps(s, c, 0)).value.lostOrders != multiset{};
  }

  predicate NamedArrival(step: Step) {
    step.Arrive? && step.courier.target != "none"
  }

  predicate NobodyNamed(steps: seq<Step>) {
    forall k :: 0 <= k < |steps| ==> !NamedArrival(steps[k])
  }

  /** `prepare` takes the courier whose arrival has already picked another order. */
  function Overtaken(a: Order, b: Order, c: Courier): seq<Step> {
    [AskCourier(a), AddReady(a), Arrive(c), PopOrder(0), AskCourier(b), TakeCourier(a)]
  }

  lemma ArriveThenPop(s: State, a: Order, c: Courier)
    requires s.ring == [] && s.ready == [a] && c.target == ANYONE
    ensures Enabled(s, Arrive(c)) && Enabled(Take(s, Arrive(c)), PopOrder(0))
    ensures var t := Take(Take(s, Arrive(c)), PopOrder(0));
            t.ring == [c] && a in t.popped && t.cooking == s.cooking && t.lostOrders == s.lostOrders
  {
  }

  lemma AskThenTake(s: State, a: Order, b: Order)
    requires |s.ring| == 1 && a in s.popped && b in s.cooking
    ensures Enabled(s, AskCourier(b)) && Enabled(Take(s, AskCourier(b)), TakeCourier(a))
    ensures Take(Take(s, AskCourier(b)), TakeCourier(a)).lostOrders == s.lostOrders + multiset{a}
  {
  }

  lemma OvertakenLoses(s: State, a: Order, b: Order, c: Courier)
    requires s.ring == [] && s.ready == [] && c.target == ANYONE && multiset{a, b} <= s.cooking
    ensures Play(s, Overtaken(a, b, c)).Some? && Play(s, Overtaken(a, b, c)).value.lostOrders == s.lostOrders + multiset{a}
  {
    hide Take, Enabled, Play;
    var t := s.(cooking := s.cooking - multiset{a}, ready := s.ready + [a]);
    assert a in s.cooking && b in t.cooking && t.ready == [a] by {
      assert multiset{a, b}[a] <= s.cooking[a] && multiset{a, b}[b] <= s.cooking[b];
    }
    AskThenAdd(s, a);
    RunTwo(s, AskCourier(a), AddReady(a));
    ArriveThenPop(t, a, c);
    RunTwo(t, Arrive(c), PopOrder(0));
    var u := Take(Take(t, Arrive(c)), PopOrder(0));
    AskThenTake(u, a, b);
    RunTwo(u, AskCourier(b), TakeCourier(a));
    RunsCompose(s, [AskCourier(a), AddReady(a)], [Arrive(c), PopOrder(0)]);
    RunsCompose(s, [AskCourier(a), AddReady(a)] + [Arrive(c), PopOrder(0)], [AskCourier(b), TakeCourier(a)]);
    assert Overtaken(a, b, c) == [AskCourier(a), AddReady(a)] + [Arrive(c), PopOrder(0)] + [AskCourier(b), TakeCourier(a)];
  }

  lemma OvertakenUnnamed(a: Order, b: Order, c: Courier)
    requires c.target == ANYONE
    ensures NobodyNamed(Overtaken(a, b, c))
  {
  }

  lemma FirstTwoCooking(orders: seq<Order>)
    requires |orders| > 1
    ensures multiset{orders[0], orders[1]} <= multiset(orders)
  {
    assert orders == [orders[0], orders[1]] + orders[2..];
  }

  /** With any two orders, some run loses one although nobody comes for a named order. */
  lemma SomeRunLosesUnnamed(orders: seq<Order>)
    requires |orders| > 1
    ensures exists steps :: NobodyNamed(steps) && Play(Init(orders), steps).Some?
                            && Play(Init(orders), steps).value.lostOrders != multiset{}
  {
    hide Play, Overtaken, NobodyNamed;
    var a, b, c := orders[0], orders[1], Courier(0, ANYONE, 0);
    FirstTwoCooking(orders);
    OvertakenLoses(Init(orders), a, b, c);
    OvertakenUnnamed(a, b, c);
    assert NobodyNamed(Overtaken(a, b, c)) && a in Play(Init(orders), Overtaken(a, b, c)).value.lostOrders;
  }

  // --- A sweep is a run ---

  function SweepSteps(p: Waiting, i: nat): seq<Step>
    decreases |p.couriers| - i
  {
    if i >= |p.couriers| then []
    else match FirstNamed(p.orders, p.couriers[i].target)
         case None => SweepSteps(p, i + 1)
         case Some(j) => [Match(i, j)] + SweepSteps(Matched(p, i, j), i + 1)
  }

  /** The pools and the deliveries of a state. */
  function Pooled(s: State): Waiting {
    Waiting(s.targeted, s.ready, s.delivered)
  }

  /** The listener's sweep over the pools is a run of the dispatcher that touches nothing else. */
  lemma {:induction false} SweepIsRun(s: State, i: nat)
    ensures var q := SweepFrom(Pooled(s), i);
            Play(s, SweepSteps(Pooled(s), i)) == Some(s.(targeted := q.couriers, ready := q.orders, delivered := q.log))
    decreases |s.targeted| - i
  {
    var p := Pooled(s);
    if i < |s.targeted| {
      match FirstNamed(p.orders, p.couriers[i].target)
      case None => SweepIsRun(s, i + 1);
      case Some(j) =>
        var t, steps := Take(s, Match(i, j)), SweepSteps(p, i);
        assert Pooled(t) == Matched(p, i, j);
        assert |t.targeted| == |s.targeted| - 1 by { MatchedSizes(p, i, j); }
        assert steps[0] == Match(i, j) && steps[1..] == SweepSteps(Pooled(t), i + 1);
        SweepIsRun(t, i + 1);
    }
  }
}
