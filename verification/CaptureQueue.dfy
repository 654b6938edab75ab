/** The bounded ring between acquisition and storage (receiver/capture_queue.cpp). */
module CaptureQueues {
  import opened Bytes
  import opened Division

  // ---- wrapped indices and the counters behind them

  /** The slot of the k-th frame ever published. */
  function Slot(k: nat, n: nat): (i: nat)
    requires n > 0
    ensures i < n
  {
    Remainder(k, n)
  }

  function Next(index: nat, n: nat): nat
    requires n > 0
  {
    (index + 1) % n
  }

  /** The depth as size() computes it from the two wrapped indices. */
  function Depth(producer: nat, consumer: nat, n: nat): int {
    if producer >= consumer then producer - consumer else n - consumer + producer
  }

  lemma SlotNext(k: nat, n: nat)
    requires n > 0
    ensures Slot(k + 1, n) == Next(Slot(k, n), n)
  {
    var q, r := Quotient(k, n), Remainder(k, n);
    NextIndex(r, n);
    hide Multiple, Quotient, Remainder, Next;
    Divided(k, n);
    MultipleNext(q, n);
    if r + 1 < n {
      DividedOnce(k + 1, n, q, r + 1);
    } else {
      DividedOnce(k + 1, n, q + 1, 0);
    }
  }

  lemma NextIndex(r: nat, n: nat)
    requires r < n
    ensures Next(r, n) == if r + 1 < n then r + 1 else 0
  {
  }

  /** How far the counters are apart, from the wrapped indices. */
  lemma SlotDistance(i: nat, j: nat, n: nat)
    requires n > 0 && i <= j < i + n
    ensures Depth(Slot(j, n), Slot(i, n), n) == j - i
    ensures Slot(i, n) == Slot(j, n) <==> i == j
  {
    var q, r := Quotient(i, n), Remainder(i, n);
    hide Multiple, Quotient, Remainder;
    Divided(i, n);
    MultipleNext(q, n);
    if r + (j - i) < n {
      DividedOnce(j, n, q, r + (j - i));
    } else {
      DividedOnce(j, n, q + 1, r + (j - i) - n);
    }
  }

  /** The full test on wrapped indices: true space means fewer than n - 1 frames in between. */
  lemma FullTest(released: nat, published: nat, n: nat)
    requires n > 1 && released <= published < released + n
    ensures Next(Slot(published, n), n) != Slot(released, n) <==> published - released < n - 1
  {
    hide Next, Slot;
    SlotNext(published, n);
    if published + 1 < released + n {
      SlotDistance(released, published + 1, n);
    } else {
      SlotRound(released, n);
    }
  }

  lemma SlotRound(k: nat, n: nat)
    requires n > 0
    ensures Slot(k + n, n) == Slot(k, n)
  {
    hide Multiple, Quotient, Remainder;
    Divided(k, n);
    MultipleNext(Quotient(k, n), n);
    DividedOnce(k + n, n, Quotient(k, n) + 1, Remainder(k, n));
  }

  datatype CapturedFrame = CapturedFrame(wire: seq<byte>, frameId: u64)

  datatype MaybeSlot = NoSlot | SlotAt(index: nat)

  /** One thread's view at a time: the queue as a sequence of at most `capacity` frames. */
  class CaptureQueue {
    const slots: array<CapturedFrame>
    const capacity: nat
    var producerIndex: nat
    var consumerIndex: nat
    ghost var published: nat
    ghost var released: nat

    ghost predicate Valid()
      reads this
    {
      && capacity > 0 && slots.Length == capacity + 1
      && released <= published <= released + capacity
      && producerIndex == Slot(published, slots.Length)
      && consumerIndex == Slot(released, slots.Length)
    }

    /** The frames in the queue, oldest first. */
    ghost function Contents(): (s: seq<CapturedFrame>)
      reads this, slots
      requires Valid()
      ensures |s| == published - released
    {
      seq(published - released, i requires 0 <= i < published - released reads this, slots
                                  requires Valid() => slots[Slot(released + i, slots.Length)])
    }

    constructor (capacity: nat)
      requires capacity > 0
      ensures Valid() && Contents() == [] && this.capacity == capacity && fresh(slots)
    {
      this.capacity := capacity;
      slots := new CapturedFrame[capacity + 1](_ => CapturedFrame([], 0));
      producerIndex, consumerIndex, published, released := 0, 0, 0, 0;
    }

    method HasSpace() returns (r: bool)
      requires Valid()
      ensures r <==> |Contents()| < capacity
    {
      FullTest(released, published, slots.Length);
      r := Next(producerIndex, slots.Length) != consumerIndex;
    }

    /** Filling the producer slot in place leaves the queue as it is. */
    method FillProducerSlot(f: CapturedFrame)
      requires Valid()
      modifies slots
      ensures slots[producerIndex] == f && Contents() == old(Contents())
    {
      hide Slot;
      forall i | released <= i < published
        ensures Slot(i, slots.Length) != producerIndex
      {
        SlotDistance(i, published, slots.Length);
      }
      slots[producerIndex] := f;
    }

    method Publish()
      requires Valid() && |Contents()| < capacity
      modifies this
      ensures Valid() && Contents() == old(Contents()) + [old(slots[producerIndex])]
      ensures published == old(published) + 1 && released == old(released)
    {
      hide Slot, Next;
      SlotNext(published, slots.Length);
      producerIndex := Next(producerIndex, slots.Length);
      published := published + 1;
    }

    method ConsumerSlot() returns (r: MaybeSlot)
      requires Valid()
      ensures r.NoSlot? <==> Contents() == []
      ensures r.SlotAt? ==> r.index < slots.Length && slots[r.index] == Contents()[0]
    {
      SlotDistance(released, published, slots.Length);
      r := if consumerIndex == producerIndex then NoSlot else SlotAt(consumerIndex);
    }

    method Release()
      requires Valid() && Contents() != []
      modifies this
      ensures Valid() && Contents() == old(Contents())[1..]
      ensures published == old(published) && released == old(released) + 1
    {
      hide Slot, Next;
      SlotNext(released, slots.Length);
      consumerIndex := Next(consumerIndex, slots.Length);
      released := released + 1;
    }

    method Empty() returns (r: bool)
      requires Valid()
      ensures r <==> Contents() == []
    {
      SlotDistance(released, published, slots.Length);
      r := consumerIndex == producerIndex;
    }

    method Size() returns (r: nat)
      requires Valid()
      ensures r == |Contents()| <= capacity
    {
      SlotDistance(released, published, slots.Length);
      r := Depth(producerIndex, consumerIndex, slots.Length);
    }
  }
}
