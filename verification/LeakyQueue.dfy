/** The leaky queue of system/common/leaky_bonded_queue.h: a bounded queue that drops its
    oldest item to make room. */
module LeakyQueue {
  import opened Options

  /** The most recent `n` items. */
  function Latest<T>(s: seq<T>, n: int): seq<T> {
    if n < 0 then [] else if |s| <= n then s else s[|s| - n..]
  }

  /** They are the end of the sequence, as long as it may be. */
  lemma LatestIsSuffix<T>(s: seq<T>, n: nat)
    ensures |Latest(s, n)| == (if |s| < n then |s| else n) && Latest(s, n) == s[|s| - |Latest(s, n)|..]
  {
  }

  /** Keeping the latest can be done as the items arrive. */
  lemma LatestStep<T>(s: seq<T>, x: T, n: int)
    requires n > 0
    ensures Latest(Latest(s, n) + [x], n) == Latest(s + [x], n)
  {
  }

  /** The queue after a sequence of Enqueue calls on an empty queue. */
  function EnqueueAll<T>(capacity: int, xs: seq<T>): seq<T>
    requires capacity > 0
  {
    if xs == [] then [] else Latest(EnqueueAll(capacity, xs[..|xs| - 1]) + [xs[|xs| - 1]], capacity)
  }

  /** After any number of Enqueue calls the queue holds the most recent items in order,
      so what it lost is exactly the oldest. */
  lemma {:induction false} HoldsTheLatest<T>(capacity: int, xs: seq<T>)
    requires capacity > 0
    ensures EnqueueAll(capacity, xs) == Latest(xs, capacity)
  {
    if xs != [] {
      var before, x := xs[..|xs| - 1], xs[|xs| - 1];
      HoldsTheLatest(capacity, before);
      assert xs == before + [x];
      LatestStep(before, x, capacity);
    }
  }

  class LeakyBondedQueue<T> {
    const capacity: int
    var items: seq<T>

    /** The queue cannot make room if it may hold nothing. */
    ghost predicate Valid()
      reads this
    {
      0 < capacity && |items| <= capacity
    }

    constructor (capacity: int)
      requires capacity > 0
      ensures Valid() && items == [] && this.capacity == capacity
    {
      this.capacity := capacity;
      items := [];
    }

    method Enqueue(x: T)
      requires Valid()
      modifies this
      ensures Valid() && items == Latest(old(items) + [x], capacity)
    {
      if |items| + 1 > capacity {
        items := items[1..];
      }
      items := items + [x];
    }

    method EnqueueWithPop(x: T) returns (oldest: Option<T>)
      requires Valid()
      modifies this
      ensures Valid() && items == Latest(old(items) + [x], capacity)
      ensures (if oldest.Some? then [oldest.value] else []) + items == old(items) + [x]
    {
      oldest := None;
      if |items| + 1 > capacity {
        oldest := Some(items[0]);
        items := items[1..];
      }
      items := items + [x];
    }

    method Dequeue() returns (x: T)
      requires Valid() && items != []
      modifies this
      ensures Valid() && [x] + items == old(items)
    {
      x := items[0];
      items := items[1..];
    }

    method Clear()
      requires Valid()
      modifies this
      ensures Valid() && items == []
    {
      while items != []
        invariant Valid()
        decreases |items|
      {
        items := items[1..];
      }
    }
  }
}
