/** The shared containers of the dispatcher; every method body is one mutex-protected section. */
module Pools {
  import opened Bytes
  import opened Items

  const COURIER_QUEUE_SIZE := 1000
  const ORDER_LIST_SIZE := 1000

  /** `ticket` tells apart orders (couriers) that agree in everything else, as their addresses do. */
  datatype Order = Order(ticket: nat, name: string, readyAt: int)

  datatype Courier = Courier(ticket: nat, target: string, arrivedAt: int)

  const NO_COURIER := Courier(0, "", 0)
  const NO_ORDER := Order(0, "", 0)

  /** Appends to a list of bounded length; a full list stays as it is. */
  function Bounded<T>(q: seq<T>, x: T, size: nat): seq<T> {
    if |q| >= size then q else q + [x]
  }

  /** The couriers waiting for any order: a ring over a fixed array. */
  class RandomCouriers {
    var front: nat
    var back: nat
    var valueCount: nat
    const values: array<Courier>

    ghost predicate Valid()
      reads this
    {
      && values.Length == COURIER_QUEUE_SIZE
      && front < COURIER_QUEUE_SIZE && back < COURIER_QUEUE_SIZE && valueCount <= COURIER_QUEUE_SIZE
      && back == (front + valueCount) % COURIER_QUEUE_SIZE
    }

    /** The queue, oldest courier first. */
    ghost function Queue(): (q: seq<Courier>)
      requires Valid()
      reads this, values
      ensures |q| == valueCount
    {
      RingSlice(values[..], front, valueCount)
    }

    constructor ()
      ensures Valid() && fresh(values) && Queue() == []
    {
      values := new Courier[COURIER_QUEUE_SIZE](_ => NO_COURIER);
      front, back, valueCount := 0, 0, 0;
    }

    method Enqueue(value: Courier)
      requires Valid()
      modifies this, values
      ensures Valid()
      ensures Queue() == Bounded(old(Queue()), value, 1000)
    {
      hide RingSlice;
      if valueCount >= COURIER_QUEUE_SIZE {
        return;
      }
      ghost var before := values[..];
      values[back] := value;
      RingAppend(before, front, valueCount, value);
      RingMoves(front, valueCount + 1);
      assert values[..] == before[back := value];
      back := (back + 1) % COURIER_QUEUE_SIZE;
      valueCount := valueCount + 1;
    }

    method Dequeue() returns (r: Option<Courier>)
      requires Valid()
      modifies this
      ensures Valid()
      ensures old(Queue()) == [] ==> r == None && Queue() == []
      ensures old(Queue()) != [] ==> r == Some(old(Queue())[0]) && Queue() == old(Queue())[1..]
    {
      hide RingSlice;
      if valueCount == 0 {
        return None;
      }
      RingTail(values[..], front, valueCount);
      RingMoves(front, valueCount);
      r := Some(values[front]);
      front := (front + 1) % COURIER_QUEUE_SIZE;
      valueCount := valueCount - 1;
    }
  }

  /** `n` values of a ring from `front` on. */
  function RingSlice(values: seq<Courier>, front: nat, n: nat): (q: seq<Courier>)
    requires |values| == COURIER_QUEUE_SIZE && front < COURIER_QUEUE_SIZE && n <= COURIER_QUEUE_SIZE
    ensures |q| == n
  {
    if front + n <= COURIER_QUEUE_SIZE then values[front..front + n] else values[front..] + values[..front + n - COURIER_QUEUE_SIZE]
  }

  /** Moving either end of a ring on. */
  lemma RingMoves(front: nat, n: nat)
    requires front < COURIER_QUEUE_SIZE && 0 < n <= COURIER_QUEUE_SIZE
    ensures (front + n) % COURIER_QUEUE_SIZE == ((front + n - 1) % COURIER_QUEUE_SIZE + 1) % COURIER_QUEUE_SIZE
    ensures (front + n) % COURIER_QUEUE_SIZE == ((front + 1) % COURIER_QUEUE_SIZE + (n - 1)) % COURIER_QUEUE_SIZE
  {
  }

  lemma RingAppend(values: seq<Courier>, front: nat, n: nat, x: Courier)
    requires |values| == COURIER_QUEUE_SIZE && front < COURIER_QUEUE_SIZE && n < COURIER_QUEUE_SIZE
    ensures var back := (front + n) % COURIER_QUEUE_SIZE;
            RingSlice(values[back := x], front, n + 1) == RingSlice(values, front, n) + [x]
  {
    var back := (front + n) % COURIER_QUEUE_SIZE;
    assert back == if front + n < COURIER_QUEUE_SIZE then front + n else front + n - COURIER_QUEUE_SIZE;
    var q, longer := RingSlice(values, front, n), RingSlice(values[back := x], front, n + 1);
    assert longer[n] == x;
    forall k | 0 <= k < n
      ensures longer[k] == q[k]
    {
    }
  }

  lemma RingTail(values: seq<Courier>, front: nat, n: nat)
    requires |values| == COURIER_QUEUE_SIZE && front < COURIER_QUEUE_SIZE && 0 < n <= COURIER_QUEUE_SIZE
    ensures RingSlice(values, front, n)[0] == values[front]
    ensures RingSlice(values, (front + 1) % COURIER_QUEUE_SIZE, n - 1) == RingSlice(values, front, n)[1..]
  {
    var q, next := RingSlice(values, front, n), (front + 1) % COURIER_QUEUE_SIZE;
    var tail := RingSlice(values, next, n - 1);
    assert next == if front + 1 == COURIER_QUEUE_SIZE then 0 else front + 1;
    forall k | 0 <= k < n - 1
      ensures tail[k] == q[k + 1]
    {
    }
  }

  /** The couriers waiting for one named order. */
  class TargetCouriers {
    var count: nat
    const couriers: array<Courier>

    ghost predicate Valid()
      reads this
    {
      couriers.Length == COURIER_QUEUE_SIZE && count <= COURIER_QUEUE_SIZE
    }

    function Contents(): (s: seq<Courier>)
      requires Valid()
      reads this, couriers
      ensures |s| == count
    {
      couriers[..count]
    }

    constructor ()
      ensures Valid() && fresh(couriers) && Contents() == []
    {
      couriers := new Courier[COURIER_QUEUE_SIZE](_ => NO_COURIER);
      count := 0;
    }

    method Add(courier: Courier)
      requires Valid()
      modifies this, couriers
      ensures Valid() && Contents() == Bounded(old(Contents()), courier, 1000)
    {
      if count == COURIER_QUEUE_SIZE {
        return;
      }
      couriers[count] := courier;
      count := count + 1;
    }

    /** Fills the gap with the last courier. */
    method Remove(i: nat)
      requires Valid() && (count > 0 ==> i < count)
      modifies this, couriers
      ensures Valid()
      ensures Contents() == if old(count) == 0 then [] else SwapOut(old(Contents()), i)
    {
      if count == 0 {
        return;
      }
      count := count - 1;
      couriers[i] := couriers[count];
    }
  }

  /** The orders that are ready and wait for a courier. */
  class ReadyOrders {
    var count: nat
    const orders: array<Order>

    ghost predicate Valid()
      reads this
    {
      orders.Length == ORDER_LIST_SIZE && count <= ORDER_LIST_SIZE
    }

    function Contents(): (s: seq<Order>)
      requires Valid()
      reads this, orders
      ensures |s| == count
    {
      orders[..count]
    }

    constructor ()
      ensures Valid() && fresh(orders) && Contents() == []
    {
      orders := new Order[ORDER_LIST_SIZE](_ => NO_ORDER);
      count := 0;
    }

    /** The sources do not check for room: the caller has to know there is some. */
    method Add(order: Order)
      requires Valid() && count < ORDER_LIST_SIZE
      modifies this, orders
      ensures Valid() && Contents() == old(Contents()) + [order]
    {
      orders[count] := order;
      count := count + 1;
    }

    method Remove(i: nat)
      requires Valid() && (count > 0 ==> i < count)
      modifies this, orders
      ensures Valid()
      ensures Contents() == if old(count) == 0 then [] else SwapOut(old(Contents()), i)
    {
      if count == 0 {
        return;
      }
      count := count - 1;
      orders[i] := orders[count];
    }

    /** Takes out the order a random number selects. */
    method PopRandom(random: nat) returns (r: Option<Order>)
      requires Valid()
      modifies this, orders
      ensures Valid()
      ensures old(Contents()) == [] ==> r == None && Contents() == []
      ensures old(Contents()) != [] ==>
                var i := random % |old(Contents())|;
                r == Some(old(Contents())[i]) && Contents() == SwapOut(old(Contents()), i)
    {
      if count < 1 {
        return None;
      }
      var i := random % count;
      r := Some(orders[i]);
      orders[i] := orders[count - 1];
      count := count - 1;
    }
  }

  /** The waiting times of everything delivered so far. */
  class TimeRecords {
    var courierCount: nat
    var orderCount: nat
    const courierTimes: array<int>
    const orderTimes: array<int>

    ghost predicate Valid()
      reads this
    {
      && courierTimes.Length == COURIER_QUEUE_SIZE && orderTimes.Length == ORDER_LIST_SIZE && courierTimes != orderTimes
      && courierCount <= COURIER_QUEUE_SIZE && orderCount <= ORDER_LIST_SIZE
    }

    constructor ()
      ensures Valid() && fresh(courierTimes) && fresh(orderTimes) && courierCount == orderCount == 0
    {
      courierTimes := new int[COURIER_QUEUE_SIZE];
      orderTimes := new int[ORDER_LIST_SIZE];
      courierCount, orderCount := 0, 0;
    }

    /** The sources do not check for room here either. */
    method Add(orderWait: int, courierWait: int)
      requires Valid() && courierCount < COURIER_QUEUE_SIZE && orderCount < ORDER_LIST_SIZE
      modifies this, courierTimes, orderTimes
      ensures Valid()
      ensures courierTimes[..courierCount] == old(courierTimes[..courierCount]) + [courierWait]
      ensures orderTimes[..orderCount] == old(orderTimes[..orderCount]) + [orderWait]
    {
      courierTimes[courierCount] := courierWait;
      courierCount := courierCount + 1;
      orderTimes[orderCount] := orderWait;
      orderCount := orderCount + 1;
    }
  }
}
