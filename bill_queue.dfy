/** The billing queue: a circular queue of `BILL_CAP` bills in a fixed
    array (`billQueue`, `billFront`, `billRear`, `billSize`). */
module BillQueue {
  import opened Wrappers

  /** `BILL_CAP`. */
  const BillCap: int := 300

  /** `Bill`; its `double` amounts are modelled as reals. */
  datatype Bill = Bill(billId: int, orderId: int, customerId: int,
                       subtotal: real, tax: real, discount: real, finalAmount: real,
                       paymentMethod: string, status: string)

  /** The bills a ring buffer holds: `size` slots from `front` on, wrapping
      past the last slot to the first. */
  ghost function Ring(buf: seq<Bill>, front: int, size: int): (r: seq<Bill>)
    requires |buf| == BillCap && 0 <= front < BillCap && 0 <= size <= BillCap
    ensures |r| == size
  {
    seq(size, k requires 0 <= k < size => buf[(front + k) % BillCap])
  }

  /** Two different offsets below `BillCap` from the same front land on
      different slots. */
  lemma SlotsDiffer(front: int, j: int, k: int)
    requires 0 <= front < BillCap && 0 <= j < k < BillCap
    ensures (front + j) % BillCap != (front + k) % BillCap
  {
    if front + k < BillCap {
      assert (front + j) % BillCap == front + j;
    } else if front + j >= BillCap {
      assert (front + j) % BillCap == front + j - BillCap && (front + k) % BillCap == front + k - BillCap;
    } else {
      assert (front + k) % BillCap == front + k - BillCap;
    }
  }

  /** Writing a bill at the rear slot `(front + size) % BillCap` of a queue
      that is not full appends it and keeps the bills already queued. */
  lemma RingEnqueue(buf: seq<Bill>, front: int, size: int, b: Bill)
    requires |buf| == BillCap && 0 <= front < BillCap && 0 <= size < BillCap
    ensures Ring(buf[(front + size) % BillCap := b], front, size + 1) == Ring(buf, front, size) + [b]
  {
    var rear := (front + size) % BillCap;
    var r := Ring(buf[rear := b], front, size + 1);
    forall k | 0 <= k < size ensures r[k] == Ring(buf, front, size)[k] {
      SlotsDiffer(front, k, size);
    }
  }

  /** Taking the bill at `front` and moving `front` on one slot leaves the
      rest of the queue in order. */
  lemma RingDequeue(buf: seq<Bill>, front: int, size: int)
    requires |buf| == BillCap && 0 <= front < BillCap && 0 < size <= BillCap
    ensures Ring(buf, front, size)[0] == buf[front]
    ensures Ring(buf, (front + 1) % BillCap, size - 1) == Ring(buf, front, size)[1..]
  {
    var next := (front + 1) % BillCap;
    forall k | 0 <= k < size - 1
      ensures Ring(buf, next, size - 1)[k] == Ring(buf, front, size)[1..][k]
    {
      assert (next + k) % BillCap == (front + 1 + k) % BillCap;
    }
  }

  /** The billing queue's globals. */
  class BillQueue {
    var billQueue: array<Bill>
    var billFront: int
    var billRear: int
    var billSize: int

    /** The slots in use run from `billFront` to just before `billRear`,
        `billSize` of them. */
    ghost predicate Valid()
      reads this
    {
      && billQueue.Length == BillCap
      && 0 <= billFront < BillCap && 0 <= billSize <= BillCap
      && billRear == (billFront + billSize) % BillCap
    }

    /** The queued bills, oldest first. */
    ghost function Contents(): seq<Bill>
      reads this, billQueue
      requires Valid()
    {
      Ring(billQueue[..], billFront, billSize)
    }

    /** The globals as the program starts them: all three counters 0. */
    constructor (filler: Bill)
      ensures Valid() && fresh(billQueue) && Contents() == []
      ensures billFront == 0 && billRear == 0 && billSize == 0
    {
      billQueue := new Bill[BillCap](_ => filler);
      billFront, billRear, billSize := 0, 0, 0;
    }

    /** `billIsFull()`: true exactly when the queue holds `BillCap` bills. */
    function BillIsFull(): (r: bool)
      reads this, billQueue
      ensures Valid() ==> (r <==> |Contents()| == BillCap)
    {
      billSize == BillCap
    }

    /** `billIsEmpty()`: true exactly when the queue holds no bill. */
    function BillIsEmpty(): (r: bool)
      reads this, billQueue
      ensures Valid() ==> (r <==> Contents() == [])
    {
      billSize == 0
    }

    /** `enqueueBill(b)`: a full queue is left alone (the message is not
        modelled); otherwise b goes into the rear slot, the rear moves on
        one slot and the size grows by one. On a valid queue this appends b
        to the queued bills. */
    method EnqueueBill(b: Bill)
      requires billQueue.Length == BillCap && 0 <= billRear < BillCap
      modifies this, billQueue
      ensures billQueue == old(billQueue) && billFront == old(billFront)
      ensures old(billSize) == BillCap ==>
                billQueue[..] == old(billQueue[..]) && billRear == old(billRear) && billSize == old(billSize)
      ensures old(billSize) != BillCap ==>
                && billQueue[..] == old(billQueue[..])[old(billRear) := b]
                && billRear == (old(billRear) + 1) % BillCap && billSize == old(billSize) + 1
      ensures old(Valid()) ==> Valid()
      ensures old(Valid()) ==>
                Contents() == if old(billSize) == BillCap then old(Contents()) else old(Contents()) + [b]
    {
      if BillIsFull() {
        return;
      }
      ghost var s := billQueue[..];
      billQueue[billRear] := b;
      assert billQueue[..] == s[billRear := b];
      if 0 <= billFront < BillCap && 0 <= billSize < BillCap && billRear == (billFront + billSize) % BillCap {
        RingEnqueue(s, billFront, billSize, b);
      }
      billRear := (billRear + 1) % BillCap;
      billSize := billSize + 1;
    }

    /** `dequeueBill()` as written: it takes the bill at the front, moves
        the front on one slot and shrinks the size, with no check that a bill
        is queued. On a valid queue holding a bill, that bill is the oldest
        and the rest stay in order. */
    method DequeueBill() returns (b: Bill)
      requires billQueue.Length == BillCap && 0 <= billFront < BillCap
      modifies this
      ensures billQueue == old(billQueue) && billRear == old(billRear)
      ensures b == billQueue[old(billFront)]
      ensures billFront == (old(billFront) + 1) % BillCap && billSize == old(billSize) - 1
      ensures old(Valid()) && old(billSize) > 0 ==> Valid() && [b] + Contents() == old(Contents())
    {
      b := billQueue[billFront];
      if Valid() && billSize > 0 {
        RingDequeue(billQueue[..], billFront, billSize);
      }
      billFront := (billFront + 1) % BillCap;
      billSize := billSize - 1;
    }

    /** `dequeueBill()` with the check the source leaves out: an empty queue
        gives None and stays as it is; otherwise the oldest bill comes out. */
    method DequeueBillChecked() returns (r: Option<Bill>)
      requires Valid()
      modifies this
      ensures Valid() && billQueue == old(billQueue)
      ensures old(billSize) == 0 ==> r == None && Contents() == old(Contents())
      ensures old(billSize) > 0 ==> r.Some? && [r.value] + Contents() == old(Contents())
    {
      if BillIsEmpty() {
        return None;
      }
      var b := DequeueBill();
      r := Some(b);
    }
  }

  /** `dequeueBill()` as written on the queue the program starts with,
      followed by `enqueueBill(b)`: the size goes to -1 and back to 0, so
      `billIsEmpty()` reports an empty queue right after a bill went in, and
      the next dequeue would hand out the slot after b's. */
  method DequeueEmptyLosesBill(b: Bill, filler: Bill) returns (emptyAfter: bool, next: int)
    ensures emptyAfter && next == 1
  {
    var q := new BillQueue(filler);
    var _ := q.DequeueBill();
    q.EnqueueBill(b);
    emptyAfter := q.BillIsEmpty();
    next := q.billFront;
  }

  /** The same calls with the checked dequeue: the bill that went in is
      queued, and the next dequeue hands out exactly it. */
  method DequeueEmptyKeepsBill(b: Bill, filler: Bill) returns (emptyAfter: bool, out: Option<Bill>)
    ensures !emptyAfter && out == Some(b)
  {
    var q := new BillQueue(filler);
    var first := q.DequeueBillChecked();
    q.EnqueueBill(b);
    assert q.Contents() == [b];
    emptyAfter := q.BillIsEmpty();
    out := q.DequeueBillChecked();
    assert ([out.value] + q.Contents())[0] == b;
  }
}
