// The fixed-capacity circular FIFO behind the job pool (ThreadSafeRingBuffer).
// `push_back` writes at `head` and advances it; `pop_front` reads at `tail`
// and advances it. One slot is always left free, so the buffer is full when
// advancing `head` would land on `tail` and empty when `tail == head`.
// The mutex of the original is not modelled: each operation is one atomic step.

module RingBuffer {

  /** The capacity the job pool is instantiated with. */
  const JobPoolCapacity: nat := 256

  /** The slot after `i`, wrapping at `capacity` (the `(x + 1) % capacity` of both operations). */
  function Next(i: nat, capacity: nat): (n: nat)
    requires i < capacity
    ensures n < capacity
    ensures n == 0 <==> i == capacity - 1
    ensures n != 0 ==> n == i + 1
  {
    (i + 1) % capacity
  }

  /** The number of items held by a buffer with these indices. */
  function Count(head: nat, tail: nat, capacity: nat): nat
    requires head < capacity && tail < capacity
  {
    (head - tail + capacity) % capacity
  }

  /** The items held, oldest first: the slots from `tail` up to (not including) `head`, wrapping round. */
  function Window<T>(data: seq<T>, tail: nat, head: nat): seq<T>
    requires tail < |data| && head < |data|
  {
    if tail <= head then data[tail..head] else data[tail..] + data[..head]
  }

  /** The number of items is `Count`, and it never exceeds `capacity - 1`. */
  lemma WindowLength<T>(data: seq<T>, tail: nat, head: nat)
    requires tail < |data| && head < |data|
    ensures |Window(data, tail, head)| == Count(head, tail, |data|)
    ensures Count(head, tail, |data|) <= |data| - 1
  {
  }

  /** The fullness test of `push_back` holds exactly when the buffer holds `capacity - 1` items. */
  lemma FullIffAtMost<T>(data: seq<T>, tail: nat, head: nat)
    requires tail < |data| && head < |data|
    ensures Next(head, |data|) == tail <==> |Window(data, tail, head)| == |data| - 1
  {
  }

  /** The emptiness test of `pop_front` holds exactly when the buffer holds nothing. */
  lemma EmptyIffNone<T>(data: seq<T>, tail: nat, head: nat)
    requires tail < |data| && head < |data|
    ensures tail == head <==> Window(data, tail, head) == []
  {
  }

  /** Writing at `head` and advancing it appends exactly that item, when the buffer is not full. */
  lemma WindowPush<T>(data: seq<T>, tail: nat, head: nat, item: T)
    requires tail < |data| && head < |data|
    requires Next(head, |data|) != tail
    ensures Window(data[head := item], tail, Next(head, |data|)) == Window(data, tail, head) + [item]
  {
  }

  /** The item at `tail` is the oldest one, and advancing `tail` removes exactly it. */
  lemma WindowPop<T>(data: seq<T>, tail: nat, head: nat)
    requires tail < |data| && head < |data|
    requires tail != head
    ensures Window(data, tail, head) != []
    ensures Window(data, tail, head)[0] == data[tail]
    ensures Window(data, Next(tail, |data|), head) == Window(data, tail, head)[1..]
  {
    var next := Next(tail, |data|);
    if tail < head {
      assert next == tail + 1;
      assert data[tail..head][1..] == data[next..head];
    } else if next == 0 {
      assert data[tail..] == [data[tail]];
      assert (data[tail..] + data[..head])[1..] == data[..head];
    } else {
      assert next == tail + 1;
      assert data[tail..][1..] == data[next..];
      assert (data[tail..] + data[..head])[1..] == data[next..] + data[..head];
    }
  }

  /** A job pool of capacity 256 never holds more than 255 pending jobs. */
  lemma JobPoolHoldsAtMost255<T>(data: seq<T>, tail: nat, head: nat)
    requires |data| == JobPoolCapacity
    requires tail < |data| && head < |data|
    ensures |Window(data, tail, head)| <= 255
  {
  }

  class ThreadSafeRingBuffer<T(0)> {
    const capacity: nat
    const data: array<T>
    var head: nat
    var tail: nat

    ghost predicate Valid()
      reads this
    {
      data.Length == capacity && 0 < capacity && head < capacity && tail < capacity
    }

    /** The items held, oldest (next to be popped) first. */
    ghost function Contents(): seq<T>
      reads this, data
      requires Valid()
    {
      Window(data[..], tail, head)
    }

    constructor (capacity: nat)
      requires 0 < capacity
      ensures Valid() && fresh(data)
      ensures this.capacity == capacity && head == 0 && tail == 0
      ensures Contents() == []
    {
      this.capacity := capacity;
      data := new T[capacity];
      head, tail := 0, 0;
    }

    /** Pushes `item` after the newest item if there is a free slot; reports whether it did. */
    method PushBack(item: T) returns (ok: bool)
      requires Valid()
      modifies this, data
      ensures Valid()
      ensures ok <==> Next(old(head), capacity) != old(tail)
      ensures ok <==> |old(Contents())| < capacity - 1
      ensures ok ==> data[old(head)] == item && head == Next(old(head), capacity) && tail == old(tail)
      ensures ok ==> forall i :: 0 <= i < capacity && i != old(head) ==> data[i] == old(data[i])
      ensures ok ==> Contents() == old(Contents()) + [item]
      ensures !ok ==> head == old(head) && tail == old(tail) && data[..] == old(data[..])
      ensures |Contents()| <= capacity - 1
    {
      FullIffAtMost(data[..], tail, head);
      ok := false;
      var next := Next(head, capacity);
      if next != tail {
        ghost var before := data[..];
        data[head] := item;
        assert data[..] == before[head := item];
        WindowPush(before, tail, head, item);
        head := next;
        ok := true;
      }
      WindowLength(data[..], tail, head);
    }

    /** Pops the oldest item into `item` if there is one; otherwise `item` keeps its value `prev`. */
    method PopFront(prev: T) returns (ok: bool, item: T)
      requires Valid()
      modifies this
      ensures Valid()
      ensures ok <==> old(tail) != old(head)
      ensures ok <==> old(Contents()) != []
      ensures ok ==> item == old(data[tail]) && item == old(Contents())[0]
      ensures ok ==> tail == Next(old(tail), capacity) && head == old(head)
      ensures ok ==> Contents() == old(Contents())[1..]
      ensures !ok ==> item == prev && head == old(head) && tail == old(tail)
      ensures data[..] == old(data[..])
    {
      EmptyIffNone(data[..], tail, head);
      ok := false;
      item := prev;
      if tail != head {
        WindowPop(data[..], tail, head);
        item := data[tail];
        tail := Next(tail, capacity);
        ok := true;
      }
    }
  }
}
