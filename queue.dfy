/**
 * The FIFO queues the capture and analysis threads share, taken one operation
 * at a time: `queue.Queue` with its non-blocking `put` and `get_nowait`, and the
 * drop-oldest insertion the pipeline builds from them.
 */
module FifoQueue {
  import opened Wrappers
  import opened Seqs

  /** `queue.Queue(maxsize)`; a `maxsize` of zero or less means unbounded. */
  class Queue<T> {
    const maxsize: int
    var items: seq<T>

    ghost predicate Valid()
      reads this
    {
      maxsize > 0 ==> |items| <= maxsize
    }

    /** `Queue.full()`: only a bounded queue can be full. */
    predicate Full()
      reads this
    {
      0 < maxsize <= |items|
    }

    constructor (maxsize: int)
      ensures Valid()
      ensures this.maxsize == maxsize && items == []
    {
      this.maxsize := maxsize;
      items := [];
    }

    /** `put(x, block=False)`: appends x, or fails (`queue.Full`) and changes nothing. */
    method PutNowait(x: T) returns (ok: bool)
      requires Valid()
      modifies this
      ensures Valid()
      ensures ok == !old(Full())
      ensures items == if ok then old(items) + [x] else old(items)
    {
      ok := !Full();
      if ok {
        items := items + [x];
      }
    }

    /** `get_nowait()`: removes and returns the oldest item, or None (`queue.Empty`). */
    method GetNowait() returns (r: Option<T>)
      requires Valid()
      modifies this
      ensures Valid()
      ensures old(items) == [] ==> r == None && items == []
      ensures old(items) != [] ==> r == Some(old(items)[0]) && items == old(items)[1..]
    {
      if items == [] {
        r := None;
      } else {
        r := Some(items[0]);
        items := items[1..];
      }
    }
  }

  /** The last min(n, |s|) elements of s, oldest first. */
  function Last<T>(s: seq<T>, n: nat): (r: seq<T>)
    ensures |r| <= n && |r| <= |s|
    ensures |s| <= n ==> r == s
  {
    if |s| <= n then s else s[|s| - n..]
  }

  /**
   * The queue's contents after the pipeline's drop-oldest insertion: a
   * non-blocking put, and when the queue is full one `get_nowait` followed by a
   * second put.
   */
  function DropOldestPut<T>(items: seq<T>, maxsize: int, x: T): (r: seq<T>)
    ensures |r| == if 0 < maxsize <= |items| then |items| else |items| + 1
    ensures r[|r| - 1] == x
    ensures 0 < maxsize && |items| <= maxsize ==> |r| <= maxsize
  {
    if 0 < maxsize <= |items| then items[1..] + [x] else items + [x]
  }

  /** The insertion performed by the pipeline on `frame_queue` and `result_queue`. */
  method PutDropOldest<T>(q: Queue<T>, x: T)
    requires q.Valid()
    modifies q
    ensures q.Valid()
    ensures q.items == DropOldestPut(old(q.items), q.maxsize, x)
  {
    var ok := q.PutNowait(x);
    if !ok {
      var dropped := q.GetNowait();
      if dropped.Some? {
        ok := q.PutNowait(x);
      }
    }
  }

  /**
   * On a bounded queue that respects its bound, a drop-oldest insertion keeps
   * the bound, always admits x as the newest item, and leaves exactly the newest
   * `maxsize` elements of the old contents followed by x: when the queue was
   * full exactly the oldest item is gone and the survivors keep their order.
   */
  lemma {:induction false} DropOldestPutWindow<T>(items: seq<T>, maxsize: int, x: T)
    requires 0 < maxsize && |items| <= maxsize
    ensures DropOldestPut(items, maxsize, x) == Last(items + [x], maxsize)
    ensures |DropOldestPut(items, maxsize, x)| <= maxsize
    ensures |items| == maxsize ==> DropOldestPut(items, maxsize, x) == items[1..] + [x]
    ensures |items| < maxsize ==> DropOldestPut(items, maxsize, x) == items + [x]
  {
    if |items| == maxsize {
      assert (items + [x])[1..] == items[1..] + [x];
    }
  }

  /** On an unbounded queue the insertion is a plain append. */
  lemma DropOldestPutUnbounded<T>(items: seq<T>, maxsize: int, x: T)
    requires maxsize <= 0
    ensures DropOldestPut(items, maxsize, x) == items + [x]
  {
  }

  /** The contents after inserting every element of xs, in order, with drop-oldest. */
  function PushAll<T>(items: seq<T>, maxsize: int, xs: seq<T>): (r: seq<T>)
    ensures |r| <= |items| + |xs|
    ensures 0 < maxsize && |items| <= maxsize ==> |r| <= maxsize
    ensures xs != [] ==> r != [] && r[|r| - 1] == xs[|xs| - 1]
  {
    if xs == [] then items
    else DropOldestPut(PushAll(items, maxsize, xs[..|xs| - 1]), maxsize, xs[|xs| - 1])
  }

  lemma LastAppend<T>(s: seq<T>, n: nat, x: T)
    requires n > 0
    ensures Last(Last(s, n) + [x], n) == Last(s + [x], n)
  {
    if |s| > n {
      assert (s + [x])[|s| + 1 - n..] == s[|s| + 1 - n..] + [x];
      assert (s[|s| - n..] + [x])[1..] == s[|s| - n + 1..] + [x];
    }
  }

  /**
   * Inserting xs into a bounded queue that respects its bound leaves exactly
   * the last `maxsize` elements of the old contents followed by xs.
   */
  lemma {:induction false} PushAllKeepsNewest<T>(items: seq<T>, maxsize: int, xs: seq<T>)
    requires 0 < maxsize && |items| <= maxsize
    ensures PushAll(items, maxsize, xs) == Last(items + xs, maxsize)
    decreases |xs|
  {
    if xs != [] {
      var init, x := xs[..|xs| - 1], xs[|xs| - 1];
      PushAllKeepsNewest(items, maxsize, init);
      var before := PushAll(items, maxsize, init);
      DropOldestPutWindow(before, maxsize, x);
      LastAppend(items + init, maxsize, x);
      assert xs == init + [x];
      Assoc(items, init, [x]);
    }
  }

  /**
   * Pushing `capacity + k` items into an empty queue of that capacity leaves
   * exactly the last `capacity` of them, oldest first.
   */
  lemma PushAllOverflow<T>(capacity: nat, xs: seq<T>, k: nat)
    requires capacity > 0 && |xs| == capacity + k
    ensures PushAll([], capacity, xs) == xs[k..]
  {
    var empty: seq<T> := [];
    assert empty + xs == xs;
    PushAllKeepsNewest(empty, capacity, xs);
    assert |xs| - capacity == k;
  }

  lemma PushAllSnoc<T>(items: seq<T>, maxsize: int, xs: seq<T>, x: T)
    ensures PushAll(items, maxsize, xs + [x]) == DropOldestPut(PushAll(items, maxsize, xs), maxsize, x)
  {
    assert (xs + [x])[..|xs|] == xs;
  }

  /** Inserting xs and then ys is inserting xs + ys. */
  lemma {:induction false} PushAllAppend<T>(items: seq<T>, maxsize: int, xs: seq<T>, ys: seq<T>)
    ensures PushAll(PushAll(items, maxsize, xs), maxsize, ys) == PushAll(items, maxsize, xs + ys)
    decreases |ys|
  {
    if ys == [] {
      assert xs + ys == xs;
    } else {
      var init := ys[..|ys| - 1];
      PushAllAppend(items, maxsize, xs, init);
      assert (xs + ys)[..|xs + ys| - 1] == xs + init;
      assert (xs + ys)[|xs + ys| - 1] == ys[|ys| - 1];
    }
  }

  /** Inserting into an unbounded queue never drops anything. */
  lemma {:induction false} PushAllUnbounded<T>(items: seq<T>, maxsize: int, xs: seq<T>)
    requires maxsize <= 0
    ensures PushAll(items, maxsize, xs) == items + xs
    decreases |xs|
  {
    if xs != [] {
      PushAllUnbounded(items, maxsize, xs[..|xs| - 1]);
      assert xs == xs[..|xs| - 1] + [xs[|xs| - 1]];
    }
  }
}
