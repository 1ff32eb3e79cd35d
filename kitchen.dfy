/** The kitchen queue: a singly linked FIFO list of dishes to prepare
    (`kitchenHead`, `kitchenTail`, `kitchenCounter`). The list is modelled by
    the sequence of its nodes from head to tail; the head and tail pointers
    are its first and last entries. */
module Kitchen {
  import opened Wrappers

  /** `KitchenOrder`, without its `next` pointer. */
  datatype KitchenOrder = KitchenOrder(orderId: int, dishName: string, tableNumber: int, prepTime: int, status: string)

  /** The node `enqueueKitchen` builds: every new order starts "Queued". */
  function NewOrder(orderId: int, dish: string, table: int, time: int): KitchenOrder
  {
    KitchenOrder(orderId, dish, table, time, "Queued")
  }

  /** The queue after `enqueueKitchen`: the new node becomes the tail. */
  function Enqueued(q: seq<KitchenOrder>, o: KitchenOrder): seq<KitchenOrder>
  {
    q + [o]
  }

  /** What `processKitchenOrder` does to a queue: an empty queue gives
      nothing and stays empty; otherwise the head is taken off. */
  function Processed(q: seq<KitchenOrder>): (Option<KitchenOrder>, seq<KitchenOrder>)
  {
    if q == [] then (None, q) else (Some(q[0]), q[1..])
  }

  /** Enqueue at the tail and process at the head commute: on a non-empty
      queue, processing after an enqueue takes the same head as processing
      before it. */
  lemma EnqueueThenProcess(q: seq<KitchenOrder>, o: KitchenOrder)
    ensures Processed(Enqueued(q, o)) ==
            if q == [] then (Some(o), []) else (Some(q[0]), Enqueued(q[1..], o))
  {
    if q != [] {
      assert Enqueued(q, o)[1..] == q[1..] + [o];
    } else {
      assert Enqueued(q, o)[1..] == [];
    }
  }

  /** The orders processing takes out, one call per order, until the queue
      is empty. */
  function Drain(q: seq<KitchenOrder>): seq<KitchenOrder>
    decreases |q|
  {
    match Processed(q)
    case (None, _) => []
    case (Some(o), rest) => [o] + Drain(rest)
  }

  /** Orders enqueued one after another. */
  function EnqueueAll(q: seq<KitchenOrder>, os: seq<KitchenOrder>): seq<KitchenOrder>
    decreases |os|
  {
    if os == [] then q else EnqueueAll(Enqueued(q, os[0]), os[1..])
  }

  /** Enqueuing the orders os appends them in the order given. */
  lemma {:induction false} EnqueueAllAppends(q: seq<KitchenOrder>, os: seq<KitchenOrder>)
    ensures EnqueueAll(q, os) == q + os
    decreases |os|
  {
    if os != [] {
      EnqueueAllAppends(Enqueued(q, os[0]), os[1..]);
      assert q + [os[0]] + os[1..] == q + os;
    }
  }

  /** Processing hands out orders exactly as they are queued, head first. */
  lemma {:induction false} DrainIsQueue(q: seq<KitchenOrder>)
    ensures Drain(q) == q
    decreases |q|
  {
    if q != [] {
      DrainIsQueue(q[1..]);
    }
  }

  /** First in, first out: orders enqueued into a queue are processed after
      everything already there, in the order they came. */
  lemma FirstInFirstOut(q: seq<KitchenOrder>, os: seq<KitchenOrder>)
    ensures Drain(EnqueueAll(q, os)) == q + os
  {
    EnqueueAllAppends(q, os);
    DrainIsQueue(q + os);
  }

  /** The kitchen queue's globals: the list and `kitchenCounter`. */
  class KitchenQueue {
    var orders: seq<KitchenOrder>
    var kitchenCounter: int

    /** `kitchenCounter` counts the nodes of the list. */
    ghost predicate Valid()
      reads this
    {
      kitchenCounter == |orders|
    }

    /** `kitchenHead = kitchenTail = nullptr`, `kitchenCounter = 0`. */
    constructor ()
      ensures Valid() && orders == []
    {
      orders := [];
      kitchenCounter := 0;
    }

    /** `enqueueKitchen(orderId, dish, table, time)`. */
    method EnqueueKitchen(orderId: int, dish: string, table: int, time: int)
      requires Valid()
      modifies this
      ensures Valid() && orders == Enqueued(old(orders), NewOrder(orderId, dish, table, time))
    {
      orders := orders + [NewOrder(orderId, dish, table, time)];
      kitchenCounter := kitchenCounter + 1;
    }

    /** `processKitchenOrder()`: the printed order is returned instead. */
    method ProcessKitchenOrder() returns (done: Option<KitchenOrder>)
      requires Valid()
      modifies this
      ensures Valid() && (done, orders) == Processed(old(orders))
    {
      if orders == [] {
        return None;
      }
      done := Some(orders[0]);
      orders := orders[1..];
      kitchenCounter := kitchenCounter - 1;
    }
  }
}
