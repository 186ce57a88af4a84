/**
  The pending-connection queue shared by the accept loop and the workers: a
  1024-slot circular array with `head` (next to take) and `tail` (next free
  slot). One slot is always left empty so that `head == tail` means empty and
  `(tail + 1) % 1024 == head` means full; a connection arriving at a full queue
  is dropped, not queued. The mutex and condition variable are left out: each
  operation is one atomic step, and a worker's wait for work becomes the
  precondition that the queue is not empty.
*/
module TaskQueue {

  const QueueSize: nat := 1024

  /** Most connections that can be pending at once: one slot stays free. */
  const Capacity: nat := QueueSize - 1

  datatype Queue = Queue(slots: seq<int>, head: int, tail: int)

  predicate WellFormed(q: Queue) {
    |q.slots| == QueueSize && 0 <= q.head < QueueSize && 0 <= q.tail < QueueSize
  }

  /** Number of pending connections. */
  function Count(q: Queue): (n: nat)
    requires WellFormed(q)
    ensures n <= Capacity
  {
    (q.tail - q.head) % QueueSize
  }

  /** The pending connections, oldest first. */
  function Contents(q: Queue): (c: seq<int>)
    requires WellFormed(q)
    ensures |c| == Count(q)
  {
    seq(Count(q), i requires 0 <= i < Count(q) => q.slots[(q.head + i) % QueueSize])
  }

  /** The queue at program start: a zeroed array with both indices at 0. */
  function Initial(): (q: Queue)
    ensures WellFormed(q) && Contents(q) == []
  {
    Queue(seq(QueueSize, _ => 0), 0, 0)
  }

  predicate IsFull(q: Queue) {
    (q.tail + 1) % QueueSize == q.head
  }

  predicate IsEmpty(q: Queue) {
    q.head == q.tail
  }

  lemma ModBelowTwice(x: int)
    requires 0 <= x < 2 * QueueSize
    ensures x % QueueSize == if x < QueueSize then x else x - QueueSize
  {
  }

  /** The slot `i` places after `head` is `tail` exactly when `i` is the count. */
  lemma SlotIsTail(q: Queue, i: nat)
    requires WellFormed(q) && i < QueueSize
    ensures (q.head + i) % QueueSize == q.tail <==> i == Count(q)
  {
    ModBelowTwice(q.head + i);
    ModBelowTwice(q.tail - q.head + QueueSize);
  }

  /** The full test is the count test: the queue is full with 1023 pending. */
  lemma FullIffAtCapacity(q: Queue)
    requires WellFormed(q)
    ensures IsFull(q) <==> Count(q) == Capacity
  {
    ModBelowTwice(q.tail + 1);
    ModBelowTwice(q.tail - q.head + QueueSize);
  }

  /** The empty test is the count test. */
  lemma EmptyIffNonePending(q: Queue)
    requires WellFormed(q)
    ensures IsEmpty(q) <==> Contents(q) == []
  {
    ModBelowTwice(q.tail - q.head + QueueSize);
  }

  /**
    The accept loop's step: when full, drop the connection and change nothing;
    otherwise store it at `tail` and advance `tail`. The flag says whether it was queued.
  */
  function Enqueue(q: Queue, sock: int): (r: (Queue, bool))
    requires WellFormed(q)
    ensures WellFormed(r.0)
    ensures r.1 <==> Count(q) < Capacity
    ensures r.1 ==> Contents(r.0) == Contents(q) + [sock] && Count(r.0) == Count(q) + 1
    ensures !r.1 ==> r.0 == q
    ensures r.0.head == q.head
    ensures forall k :: 0 <= k < QueueSize && k != q.tail ==> r.0.slots[k] == q.slots[k]
  {
    FullIffAtCapacity(q);
    if IsFull(q) then (q, false)
    else
      var q' := Queue(q.slots[q.tail := sock], q.head, (q.tail + 1) % QueueSize);
      EnqueueContents(q, sock, q');
      (q', true)
  }

  lemma EnqueueContents(q: Queue, sock: int, q': Queue)
    requires WellFormed(q) && !IsFull(q)
    requires q' == Queue(q.slots[q.tail := sock], q.head, (q.tail + 1) % QueueSize)
    ensures WellFormed(q')
    ensures Count(q') == Count(q) + 1
    ensures Contents(q') == Contents(q) + [sock]
  {
    FullIffAtCapacity(q);
    ModBelowTwice(q.tail + 1);
    ModBelowTwice(q.tail - q.head + QueueSize);
    ModBelowTwice(q'.tail - q.head + QueueSize);
    var n := Count(q);
    forall i | 0 <= i < n + 1
      ensures Contents(q')[i] == (Contents(q) + [sock])[i]
    {
      SlotIsTail(q, i);
    }
  }

  /**
    A worker's step, taken only when the queue is not empty: the connection at
    `head` is the oldest one, and `head` advances.
  */
  function Dequeue(q: Queue): (r: (int, Queue))
    requires WellFormed(q) && !IsEmpty(q)
    ensures WellFormed(r.1)
    ensures |Contents(q)| > 0 && r.0 == Contents(q)[0]
    ensures Contents(r.1) == Contents(q)[1..]
    ensures r.1.tail == q.tail && r.1.slots == q.slots
  {
    EmptyIffNonePending(q);
    var q' := Queue(q.slots, (q.head + 1) % QueueSize, q.tail);
    DequeueContents(q, q');
    (q.slots[q.head], q')
  }

  /** Advancing an index and then stepping `i` lands where stepping `i + 1` does. */
  lemma ModShift(h: int, i: int)
    requires 0 <= h < QueueSize && 0 <= i < QueueSize
    ensures ((h + 1) % QueueSize + i) % QueueSize == (h + i + 1) % QueueSize
  {
    ModBelowTwice(h + 1);
    ModBelowTwice(h + i + 1);
    if h + 1 < QueueSize {
      assert (h + 1) % QueueSize == h + 1;
    } else {
      assert (h + 1) % QueueSize == 0;
      ModBelowTwice(i);
    }
  }

  lemma DequeueContents(q: Queue, q': Queue)
    requires WellFormed(q) && !IsEmpty(q)
    requires q' == Queue(q.slots, (q.head + 1) % QueueSize, q.tail)
    ensures WellFormed(q')
    ensures Count(q) > 0
    ensures Contents(q') == Contents(q)[1..]
  {
    EmptyIffNonePending(q);
    ModBelowTwice(q.head + 1);
    ModBelowTwice(q.tail - q.head + QueueSize);
    ModBelowTwice(q.tail - q'.head + QueueSize);
    assert Count(q') == Count(q) - 1;
    forall i | 0 <= i < Count(q')
      ensures Contents(q')[i] == Contents(q)[i + 1]
    {
      ModShift(q.head, i);
    }
  }

  /**
    The accept loop with no worker taking anything: each connection in turn is
    queued or dropped. The result is the final queue and the connections queued.
  */
  function EnqueueAll(q: Queue, socks: seq<int>): (r: (Queue, seq<int>))
    requires WellFormed(q)
    ensures WellFormed(r.0)
    decreases |socks|
  {
    if |socks| == 0 then (q, [])
    else
      var (q1, accepted) := Enqueue(q, socks[0]);
      var (q2, rest) := EnqueueAll(q1, socks[1..]);
      (q2, if accepted then [socks[0]] + rest else rest)
  }

  /** One connection of the burst, then the rest. */
  lemma EnqueueAllStep(q: Queue, socks: seq<int>)
    requires WellFormed(q) && |socks| > 0
    ensures var r := Enqueue(q, socks[0]);
      var after := EnqueueAll(r.0, socks[1..]);
      && EnqueueAll(q, socks).0 == after.0
      && EnqueueAll(q, socks).1 == (if r.1 then [socks[0]] + after.1 else after.1)
  {
  }

  /** How many of a burst fit: all of it, or as many as there are free slots. */
  function Admitted(q: Queue, socks: seq<int>): (n: nat)
    requires WellFormed(q)
    ensures n <= |socks| && n <= Capacity - Count(q)
  {
    var free := Capacity - Count(q);
    if |socks| < free then |socks| else free
  }

  /** The connections queued from a burst are its first `Admitted` ones, in order. */
  lemma {:induction false} EnqueueAllAccepts(q: Queue, socks: seq<int>)
    requires WellFormed(q)
    ensures EnqueueAll(q, socks).1 == socks[..Admitted(q, socks)]
    decreases |socks|
  {
    if |socks| > 0 {
      var r := Enqueue(q, socks[0]);
      var rest := socks[1..];
      EnqueueAllStep(q, socks);
      EnqueueAllAccepts(r.0, rest);
      if r.1 {
        var n := Admitted(q, socks);
        assert Count(r.0) == Count(q) + 1;
        assert Admitted(r.0, rest) == n - 1;
        assert socks[..n] == [socks[0]] + rest[..n - 1];
      } else {
        assert Admitted(r.0, rest) == 0;
      }
    }
  }

  /** The queue after a burst holds what it held before, then the connections queued. */
  lemma {:induction false} EnqueueAllAppends(q: Queue, socks: seq<int>)
    requires WellFormed(q)
    ensures Contents(EnqueueAll(q, socks).0) == Contents(q) + EnqueueAll(q, socks).1
    decreases |socks|
  {
    if |socks| == 0 {
      assert Contents(q) + [] == Contents(q);
    } else {
      var r := Enqueue(q, socks[0]);
      var rest := socks[1..];
      EnqueueAllStep(q, socks);
      EnqueueAllAppends(r.0, rest);
      var after := EnqueueAll(r.0, rest).1;
      if r.1 {
        assert (Contents(q) + [socks[0]]) + after == Contents(q) + ([socks[0]] + after);
      }
    }
  }

  /**
    Backpressure by drop: starting from `Count(q)` pending connections, of any
    burst the first connections up to the free capacity are queued, in order,
    and every later one is dropped.
  */
  lemma EnqueueAllKeepsPrefix(q: Queue, socks: seq<int>)
    requires WellFormed(q)
    ensures var free := Capacity - Count(q);
      var n := if |socks| < free then |socks| else free;
      && EnqueueAll(q, socks).1 == socks[..n]
      && Contents(EnqueueAll(q, socks).0) == Contents(q) + socks[..n]
  {
    EnqueueAllAccepts(q, socks);
    EnqueueAllAppends(q, socks);
  }

  /**
    From the empty queue, a burst of 1023 + k connections queues the first 1023,
    drops the other k, and leaves the queue full.
  */
  lemma BurstFromInitial(socks: seq<int>)
    requires |socks| >= Capacity
    ensures EnqueueAll(Initial(), socks).1 == socks[..Capacity]
    ensures Contents(EnqueueAll(Initial(), socks).0) == socks[..Capacity]
    ensures IsFull(EnqueueAll(Initial(), socks).0)
  {
    EnqueueAllKeepsPrefix(Initial(), socks);
    FullIffAtCapacity(EnqueueAll(Initial(), socks).0);
  }

  /** The queue object: the global array and its two indices. */
  class ConnectionQueue {
    var slots: array<int>
    var head: int
    var tail: int

    predicate Valid()
      reads this
    {
      slots.Length == QueueSize && 0 <= head < QueueSize && 0 <= tail < QueueSize
    }

    /** The value the object stands for. */
    function Model(): (q: Queue)
      reads this, slots
      requires Valid()
      ensures WellFormed(q)
    {
      Queue(slots[..], head, tail)
    }

    constructor()
      ensures Valid() && fresh(slots) && Contents(Model()) == []
    {
      slots := new int[QueueSize](_ => 0);
      head := 0;
      tail := 0;
    }

    /** The enqueue in the accept loop: drop when full, else store and advance `tail`. */
    method TryEnqueue(sock: int) returns (accepted: bool)
      requires Valid()
      modifies this, slots
      ensures Valid() && slots == old(slots)
      ensures (Model(), accepted) == Enqueue(old(Model()), sock)
    {
      if (tail + 1) % QueueSize == head {
        accepted := false;
      } else {
        slots[tail] := sock;
        tail := (tail + 1) % QueueSize;
        accepted := true;
      }
    }

    /** The take in the worker loop, once `head != tail`: read `slots[head]` and advance `head`. */
    method Take() returns (sock: int)
      requires Valid() && head != tail
      modifies this
      ensures Valid() && slots == old(slots)
      ensures (sock, Model()) == Dequeue(old(Model()))
    {
      sock := slots[head];
      head := (head + 1) % QueueSize;
    }
  }
}
