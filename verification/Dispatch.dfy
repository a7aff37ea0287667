/**
 The dispatch protocol as a state machine.  A step is one mutex-protected section of one thread; between steps a
 thread holds orders and couriers in its own variables.  The listener's match, which reads the pools without a lock,
 and the recording of a delivery, which takes none either, are one step each.
 */
module Dispatch {
  import opened Bytes
  import opened Items
  import opened Pools
  import opened Sweep

  datatype State = State(
    cooking: multiset<Order>,        // held by kitchen threads that have not yet asked for a courier
    unserved: multiset<Order>,       // held by kitchen threads that found no courier
    ready: seq<Order>,
    ring: seq<Courier>,
    targeted: seq<Courier>,
    arrived: nat,                    // arrival threads about to look for an order
    popped: multiset<Order>,         // held by arrival threads about to look for a courier
    emptyHanded: nat,                // arrival threads that found no order
    paired: seq<Delivery>,           // held by threads about to record a delivery
    delivered: seq<Delivery>,
    lostOrders: multiset<Order>,
    lostCouriers: multiset<Courier>,
    couriers: multiset<Courier>)     // everyone who ever arrived

  datatype Step =
    | AskCourier(order: Order)             // order_manager.c, prepare: dequeue a courier for a finished order
    | AddReady(order: Order)               // order_manager.c, add_order
    | Arrive(courier: Courier)             // courier_manager.c, enqueue_random_courier or add_target_courier
    | PopOrder(random: nat)                // courier_manager.c, the arrival step takes an order
    | TakeCourier(order: Order)            // ... and then a courier for it
    | TakeCourierEmptyHanded
    | Record(k: nat)                       // courier_manager.c, deliver_order
    | Match(i: nat, j: nat)                // courier_manager.c, the listener

  const ANYONE := "none"

  function Init(orders: seq<Order>): State {
    State(multiset(orders), multiset{}, [], [], [], 0, multiset{}, 0, [], [], multiset{}, multiset{}, multiset{})
  }

  predicate Enabled(s: State, step: Step) {
    match step
    case AskCourier(o) => o in s.cooking
    case AddReady(o) => o in s.unserved
    case Arrive(_) => true
    case PopOrder(_) => s.arrived > 0
    case TakeCourier(o) => o in s.popped
    case TakeCourierEmptyHanded => s.emptyHanded > 0
    case Record(k) => k < |s.paired|
    case Match(i, j) => i < |s.targeted| && j < |s.ready| && s.targeted[i].target == s.ready[j].name
  }

  function Take(s: State, step: Step): State
    requires Enabled(s, step)
  {
    match step
    case AskCourier(o) =>
      if s.ring == [] then s.(cooking := s.cooking - multiset{o}, unserved := s.unserved + multiset{o})
      else s.(cooking := s.cooking - multiset{o}, ring := s.ring[1..], paired := s.paired + [Delivery(s.ring[0], o)])
    case AddReady(o) => s.(unserved := s.unserved - multiset{o}, ready := s.ready + [o])
    case Arrive(c) =>
      var met := s.(couriers := s.couriers + multiset{c}, arrived := s.arrived + 1);
      if c.target == ANYONE then
        if |s.ring| >= COURIER_QUEUE_SIZE then met.(lostCouriers := s.lostCouriers + multiset{c})
        else met.(ring := Bounded(s.ring, c, COURIER_QUEUE_SIZE))
      else
        if |s.targeted| >= COURIER_QUEUE_SIZE then met.(lostCouriers := s.lostCouriers + multiset{c})
        else met.(targeted := Bounded(s.targeted, c, COURIER_QUEUE_SIZE))
    case PopOrder(random) =>
      if s.ready == [] then s.(arrived := s.arrived - 1, emptyHanded := s.emptyHanded + 1)
      else
        var i := random % |s.ready|;
        s.(arrived := s.arrived - 1, ready := SwapOut(s.ready, i), popped := s.popped + multiset{s.ready[i]})
    case TakeCourier(o) =>
      if s.ring == [] then s.(popped := s.popped - multiset{o}, lostOrders := s.lostOrders + multiset{o})
      else s.(popped := s.popped - multiset{o}, ring := s.ring[1..], paired := s.paired + [Delivery(s.ring[0], o)])
    case TakeCourierEmptyHanded =>
      if s.ring == [] then s.(emptyHanded := s.emptyHanded - 1)
      else s.(emptyHanded := s.emptyHanded - 1, ring := s.ring[1..], lostCouriers := s.lostCouriers + multiset{s.ring[0]})
    case Record(k) => s.(paired := SwapOut(s.paired, k), delivered := s.delivered + [s.paired[k]])
    case Match(i, j) =>
      s.(targeted := SwapOut(s.targeted, i), ready := SwapOut(s.ready, j),
         delivered := s.delivered + [Delivery(s.targeted[i], s.ready[j])])
  }

  /**
   * Where an arriving courier goes: announced as "none" to the ring, announced by any other name to the pool of named
   * couriers; each holds 1000 and loses who comes then.
   */
  lemma ArrivesWhere(s: State, c: Courier)
    ensures var t, full := Take(s, Arrive(c)), (if c.target == "none" then |s.ring| else |s.targeted|) >= 1000;
            && t.ring == (if c.target == "none" && !full then s.ring + [c] else s.ring)
            && t.targeted == (if c.target != "none" && !full then s.targeted + [c] else s.targeted)
            && t.lostCouriers == (if full then s.lostCouriers + multiset{c} else s.lostCouriers)
            && t.ready == s.ready && t.lostOrders == s.lostOrders && t.delivered == s.delivered
  {
  }

  /** The state a run ends in, if each of its steps was possible. */
  function Play(s: State, steps: seq<Step>): Option<State>
    decreases |steps|
  {
    if steps == [] then Some(s)
    else if !Enabled(s, steps[0]) then None
    else Play(Take(s, steps[0]), steps[1..])
  }

  // --- What every step keeps ---

  /** In how many places an order is: with a kitchen thread, ready, with an arrival thread, paired, delivered, lost. */
  function Places(s: State, o: Order): nat {
    s.cooking[o] + s.unserved[o] + multiset(s.ready)[o] + s.popped[o]
    + multiset(Orders(s.paired))[o] + multiset(Orders(s.delivered))[o] + s.lostOrders[o]
  }

  /** In how many places a courier is. */
  function CourierPlaces(s: State, c: Courier): nat {
    multiset(s.ring)[c] + multiset(s.targeted)[c] + multiset(Couriers(s.paired))[c] + multiset(Couriers(s.delivered))[c]
    + s.lostCouriers[c]
  }

  ghost predicate Inv(s: State, orders: seq<Order>) {
    && (forall o :: Places(s, o) == multiset(orders)[o])
    && (forall c :: CourierPlaces(s, c) == s.couriers[c])
    && |s.ring| <= COURIER_QUEUE_SIZE && |s.targeted| <= COURIER_QUEUE_SIZE
  }

  lemma DequeueTakesOne(q: seq<Courier>)
    requires q != []
    ensures multiset(q) == multiset{q[0]} + multiset(q[1..])
  {
    assert q == [q[0]] + q[1..];
  }

  lemma PairAppends(s: seq<Delivery>, d: Delivery)
    ensures multiset(Orders(s + [d])) == multiset(Orders(s)) + multiset{d.order}
    ensures multiset(Couriers(s + [d])) == multiset(Couriers(s)) + multiset{d.courier}
  {
    assert Orders(s + [d]) == Orders(s) + [d.order];
    assert Couriers(s + [d]) == Couriers(s) + [d.courier];
  }

  lemma PairSwapsOut(s: seq<Delivery>, k: nat)
    requires k < |s|
    ensures multiset(Orders(s)) == multiset(Orders(SwapOut(s, k))) + multiset{s[k].order}
    ensures multiset(Couriers(s)) == multiset(Couriers(SwapOut(s, k))) + multiset{s[k].courier}
  {
    assert Orders(SwapOut(s, k)) == SwapOut(Orders(s), k);
    assert Couriers(SwapOut(s, k)) == SwapOut(Couriers(s), k);
    SwapOutTakesOne(Orders(s), k);
    SwapOutTakesOne(Couriers(s), k);
  }

  /** A courier leaves the ring for an order a thread holds. */
  lemma HandOverKeepsPlaces(s: State, step: Step, o: Order, c: Courier)
    requires Enabled(s, step) && (step.AskCourier? || step.TakeCourier?) && s.ring != []
    requires CourierPlaces(s, c) == s.couriers[c]
    ensures Places(Take(s, step), o) == Places(s, o)
    ensures CourierPlaces(Take(s, step), c) == Take(s, step).couriers[c]
  {
    hide SwapOut, Orders, Couriers;
    DequeueTakesOne(s.ring);
    PairAppends(s.paired, Delivery(s.ring[0], step.order));
  }

  /** No courier is in the ring for it. */
  lemma MissKeepsPlaces(s: State, step: Step, o: Order, c: Courier)
    requires Enabled(s, step) && (step.AskCourier? || step.TakeCourier?) && s.ring == []
    requires CourierPlaces(s, c) == s.couriers[c]
    ensures Places(Take(s, step), o) == Places(s, o)
    ensures CourierPlaces(Take(s, step), c) == Take(s, step).couriers[c]
  {
    hide Orders, Couriers;
  }

  lemma RecordKeepsPlaces(s: State, step: Step, o: Order, c: Courier)
    requires Enabled(s, step) && step.Record?
    requires CourierPlaces(s, c) == s.couriers[c]
    ensures Places(Take(s, step), o) == Places(s, o)
    ensures CourierPlaces(Take(s, step), c) == Take(s, step).couriers[c]
  {
    hide SwapOut, Orders, Couriers;
    PairSwapsOut(s.paired, step.k);
    PairAppends(s.delivered, s.paired[step.k]);
  }

  lemma MatchKeepsPlaces(s: State, step: Step, o: Order, c: Courier)
    requires Enabled(s, step) && step.Match?
    requires CourierPlaces(s, c) == s.couriers[c]
    ensures Places(Take(s, step), o) == Places(s, o)
    ensures CourierPlaces(Take(s, step), c) == Take(s, step).couriers[c]
  {
    hide SwapOut, Orders, Couriers;
    SwapOutTakesOne(s.targeted, step.i);
    SwapOutTakesOne(s.ready, step.j);
    PairAppends(s.delivered, Delivery(s.targeted[step.i], s.ready[step.j]));
  }

  lemma AddReadyKeepsPlaces(s: State, step: Step, o: Order, c: Courier)
    requires Enabled(s, step) && step.AddReady?
    requires CourierPlaces(s, c) == s.couriers[c]
    ensures Places(Take(s, step), o) == Places(s, o)
    ensures CourierPlaces(Take(s, step), c) == Take(s, step).couriers[c]
  {
  }

  lemma ArriveKeepsPlaces(s: State, step: Step, o: Order, c: Courier)
    requires Enabled(s, step) && step.Arrive?
    requires CourierPlaces(s, c) == s.couriers[c]
    ensures Places(Take(s, step), o) == Places(s, o)
    ensures CourierPlaces(Take(s, step), c) == Take(s, step).couriers[c]
  {
    hide Orders, Couriers;
    var t, d := Take(s, step), step.courier;
    if d.target == ANYONE {
      assert t.targeted == s.targeted && (t.ring == s.ring || t.ring == s.ring + [d]);
    } else {
      assert t.ring == s.ring && (t.targeted == s.targeted || t.targeted == s.targeted + [d]);
    }
  }

  lemma PopKeepsPlaces(s: State, step: Step, o: Order, c: Courier)
    requires Enabled(s, step) && step.PopOrder?
    requires CourierPlaces(s, c) == s.couriers[c]
    ensures Places(Take(s, step), o) == Places(s, o)
    ensures CourierPlaces(Take(s, step), c) == Take(s, step).couriers[c]
  {
    hide SwapOut, Orders, Couriers;
    if s.ready != [] {
      SwapOutTakesOne(s.ready, step.random % |s.ready|);
    }
  }

  lemma EmptyHandedKeepsPlaces(s: State, o: Order, c: Courier)
    requires Enabled(s, TakeCourierEmptyHanded)
    requires CourierPlaces(s, c) == s.couriers[c]
    ensures Places(Take(s, TakeCourierEmptyHanded), o) == Places(s, o)
    ensures CourierPlaces(Take(s, TakeCourierEmptyHanded), c) == Take(s, TakeCourierEmptyHanded).couriers[c]
  {
    if s.ring != [] {
      DequeueTakesOne(s.ring);
    }
  }

  /** No step makes, copies or destroys an order; a courier appears by arriving, and by nothing else. */
  lemma StepKeepsPlaces(s: State, step: Step, o: Order, c: Courier)
    requires Enabled(s, step)
    requires CourierPlaces(s, c) == s.couriers[c]
    ensures Places(Take(s, step), o) == Places(s, o)
    ensures CourierPlaces(Take(s, step), c) == Take(s, step).couriers[c]
  {
    hide Take, Places, CourierPlaces;
    match step
    case AskCourier(_) => if s.ring == [] { MissKeepsPlaces(s, step, o, c); } else { HandOverKeepsPlaces(s, step, o, c); }
    case TakeCourier(_) => if s.ring == [] { MissKeepsPlaces(s, step, o, c); } else { HandOverKeepsPlaces(s, step, o, c); }
    case Record(_) => RecordKeepsPlaces(s, step, o, c);
    case Match(_, _) => MatchKeepsPlaces(s, step, o, c);
    case TakeCourierEmptyHanded => EmptyHandedKeepsPlaces(s, o, c);
    case PopOrder(_) => PopKeepsPlaces(s, step, o, c);
    case AddReady(_) => AddReadyKeepsPlaces(s, step, o, c);
    case Arrive(_) => ArriveKeepsPlaces(s, step, o, c);
  }

  lemma StepKeepsBounds(s: State, step: Step)
    requires Enabled(s, step) && |s.ring| <= COURIER_QUEUE_SIZE && |s.targeted| <= COURIER_QUEUE_SIZE
    ensures |Take(s, step).ring| <= COURIER_QUEUE_SIZE && |Take(s, step).targeted| <= COURIER_QUEUE_SIZE
  {
  }

  lemma StepKeepsInv(s: State, step: Step, orders: seq<Order>)
    requires Inv(s, orders) && Enabled(s, step)
    ensures Inv(Take(s, step), orders)
  {
    hide Take, Places, CourierPlaces;
    var t := Take(s, step);
    forall o: Order
      ensures Places(t, o) == multiset(orders)[o]
    {
      StepKeepsPlaces(s, step, o, NO_COURIER);
    }
    forall c: Courier
      ensures CourierPlaces(t, c) == t.couriers[c]
    {
      StepKeepsPlaces(s, step, NO_ORDER, c);
    }
    StepKeepsBounds(s, step);
  }

  lemma {:induction false} RunKeepsInv(s: State, steps: seq<Step>, orders: seq<Order>)
    requires Inv(s, orders) && Play(s, steps).Some?
    ensures Inv(Play(s, steps).value, orders)
    decreases |steps|
  {
    hide Inv, Take;
    if steps != [] {
      StepKeepsInv(s, steps[0], orders);
      RunKeepsInv(Take(s, steps[0]), steps[1..], orders);
    }
  }

  lemma InitInv(orders: seq<Order>)
    ensures Inv(Init(orders), orders)
  {
  }
}
