// Bounded ring-buffer queue of src/tools/RingBuffer.hpp (`LockFreeMPMCQueue`),
// modelled sequentially: every compare-and-swap succeeds and the atomic
// indices are plain fields.

module RingBuffer {
  import opened Wrappers

  /** The slot `i` lands on once it is brought back below `capacity`
      (for `i < 2 * capacity`); the model's form of `i % capacity`. */
  function Wrap(i: nat, capacity: nat): (r: nat)
    requires 0 < capacity && i < 2 * capacity
    ensures r < capacity
  {
    if i < capacity then i else i - capacity
  }

  lemma WrapIsMod(i: nat, capacity: nat)
    requires 0 < capacity && i < 2 * capacity
    ensures Wrap(i, capacity) == i % capacity
  {
    if i >= capacity {
      assert i == capacity + (i - capacity);
    }
  }

  /** Number of occupied slots between `head` (inclusive) and `tail` (exclusive). */
  function Distance(head: nat, tail: nat, capacity: nat): (r: nat)
    requires head < capacity && tail < capacity
    ensures r < capacity
    ensures r == (tail - head + capacity) % capacity
  {
    WrapIsMod(tail + capacity - head, capacity);
    Wrap(tail + capacity - head, capacity)
  }

  class LockFreeMpmcQueue<T(0)> {
    // public view: the items held, oldest first
    ghost var Contents: seq<T>

    // implementation
    const capacity: nat
    const buffer: array<T>
    var head: nat
    var tail: nat

    ghost predicate Valid()
      reads this, buffer
    {
      && 0 < capacity
      && buffer.Length == capacity
      && head < capacity && tail < capacity
      && |Contents| == Distance(head, tail, capacity)
      && forall k :: 0 <= k < |Contents| ==> Contents[k] == buffer[Wrap(head + k, capacity)]
    }

    /** `LockFreeMPMCQueue(capacity)`: both indices start at 0, so the queue is empty. */
    constructor (capacity: nat)
      requires 0 < capacity
      ensures Valid() && fresh(buffer)
      ensures this.capacity == capacity && head == 0 && tail == 0
      ensures Contents == []
    {
      this.capacity := capacity;
      buffer := new T[capacity];
      head, tail := 0, 0;
      Contents := [];
    }

    /** `empty()`: the two indices meet exactly when nothing is stored. */
    function Empty(): (e: bool)
      reads this, buffer
      requires Valid()
      ensures e <==> Contents == []
      ensures e <==> Size() == 0
    {
      head == tail
    }

    /** `size()`: the index distance is the number of stored items, always
        below the capacity because one slot stays free. */
    function Size(): (n: nat)
      reads this, buffer
      requires Valid()
      ensures n == |Contents|
      ensures n < capacity
    {
      (tail - head + capacity) % capacity
    }

    /** `try_enqueue`: rejected (and nothing changes) when advancing the tail
        would meet the head; otherwise the value goes into the old tail slot. */
    method TryEnqueue(x: T) returns (ok: bool)
      requires Valid()
      modifies this, buffer
      ensures Valid()
      ensures ok <==> |old(Contents)| < capacity - 1
      ensures ok ==> Contents == old(Contents) + [x]
      ensures ok ==> head == old(head) && tail == Wrap(old(tail) + 1, capacity)
      ensures ok ==> buffer[old(tail)] == x
      ensures ok ==> forall i :: 0 <= i < capacity && i != old(tail) ==> buffer[i] == old(buffer[i])
      ensures !ok ==> Contents == old(Contents) && head == old(head) && tail == old(tail)
      ensures !ok ==> buffer[..] == old(buffer[..])
    {
      var currentTail := tail;
      var nextTail := (currentTail + 1) % capacity;
      WrapIsMod(currentTail + 1, capacity);
      if nextTail == head {
        return false;
      }
      tail := nextTail;
      buffer[currentTail] := x;
      Contents := Contents + [x];
      ok := true;
      forall k | 0 <= k < |Contents|
        ensures Contents[k] == buffer[Wrap(head + k, capacity)]
      {
        if k < |Contents| - 1 {
          // slots of the older items differ from the slot just written
          assert Wrap(head + k, capacity) != currentTail;
        }
      }
    }

    /** `try_dequeue`: nothing when the indices meet; otherwise the value in
        the old head slot, and the head moves on by one. */
    method TryDequeue() returns (r: Option<T>)
      requires Valid()
      modifies this
      ensures Valid()
      ensures r.None? <==> old(Contents) == []
      ensures r.Some? ==> r.value == old(Contents)[0] && r.value == buffer[old(head)]
      ensures r.Some? ==> Contents == old(Contents)[1..]
      ensures r.Some? ==> head == Wrap(old(head) + 1, capacity) && tail == old(tail)
      ensures r.None? ==> Contents == old(Contents) && head == old(head) && tail == old(tail)
    {
      var currentHead := head;
      if currentHead == tail {
        return None;
      }
      var newHead := (currentHead + 1) % capacity;
      WrapIsMod(currentHead + 1, capacity);
      head := newHead;
      r := Some(buffer[currentHead]);
      Contents := Contents[1..];
    }
  }

  /** Items leave in the order they were accepted: two accepted values come
      back first-in first-out from a queue that was empty. */
  method FifoScenario<T(0)>(x: T, y: T) returns (first: Option<T>, second: Option<T>, third: Option<T>)
    ensures first == Some(x) && second == Some(y) && third == None
  {
    var q := new LockFreeMpmcQueue<T>(3);
    var ok1 := q.TryEnqueue(x);
    var ok2 := q.TryEnqueue(y);
    var ok3 := q.TryEnqueue(x);
    assert ok1 && ok2 && !ok3;
    first := q.TryDequeue();
    second := q.TryDequeue();
    third := q.TryDequeue();
  }
}
