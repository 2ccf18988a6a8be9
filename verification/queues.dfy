/**
 * The bounded FIFO queues that connect routines: Python's `queue.Queue` as
 * used single-threaded, with the non-blocking `get(block=False)` /
 * `put(block=False)` and the blocking `put`. A `multiprocessing.Queue` is
 * treated the same way: the delay of its feeder thread, during which a put
 * item is not yet visible to `get`, is not modelled.
 */
module Queues {
  import opened Wrappers

  /**
   * The items of a queue, oldest first, and the `maxsize` it was built with.
   * As in Python, a `maxsize` of zero or less means the queue has no bound.
   */
  datatype QueueState<T> = QueueState(items: seq<T>, maxsize: int) {

    /** The bound every real queue keeps. */
    predicate WithinBound() {
      maxsize <= 0 || |items| <= maxsize
    }

    /** `full()`: a non-blocking put would raise `Full`. */
    predicate IsFull() {
      0 < maxsize <= |items|
    }

    /** `empty()`: a non-blocking get would raise `Empty`. */
    predicate IsEmpty() {
      |items| == 0
    }
  }

  /** A queue whose contents respect its bound; no operation can break it. */
  type Queue<T> = q: QueueState<T> | q.WithinBound() witness QueueState([], 0)

  /** `Queue(maxsize=m)`: a new, empty queue. */
  function NewQueue<T>(maxsize: int): (q: Queue<T>)
    ensures q.IsEmpty() && q.maxsize == maxsize
  {
    QueueState([], maxsize)
  }

  /**
   * `get(block=False)`: the oldest item and the queue without it, or `None`
   * where Python raises `Empty`.
   */
  function TryGet<T>(q: Queue<T>): (r: Option<(T, Queue<T>)>)
    ensures r.None? <==> q.IsEmpty()
    ensures r.Some? ==>
              && r.value.0 == q.items[0]
              && r.value.1.items == q.items[1..]
              && r.value.1.maxsize == q.maxsize
  {
    if |q.items| == 0 then None
    else Some((q.items[0], QueueState(q.items[1..], q.maxsize)))
  }

  /**
   * `put(x, block=False)`: the queue with `x` as its newest item, or `None`
   * where Python raises `Full`.
   */
  function TryPut<T>(q: Queue<T>, x: T): (r: Option<Queue<T>>)
    ensures r.None? <==> q.IsFull()
    ensures r.Some? ==> r.value.items == q.items + [x] && r.value.maxsize == q.maxsize
  {
    if 0 < q.maxsize <= |q.items| then None
    else Some(QueueState(q.items + [x], q.maxsize))
  }

  /**
   * The blocking `put(x)`. A single thread would wait forever on a full
   * queue, so callers must show there is room.
   */
  function Put<T>(q: Queue<T>, x: T): (r: Queue<T>)
    requires !q.IsFull()
    ensures r.items == q.items + [x] && r.maxsize == q.maxsize
  {
    QueueState(q.items + [x], q.maxsize)
  }

  /** Everything `get` hands out, in order, until the queue is empty. */
  function Drain<T>(q: Queue<T>): seq<T>
    decreases |q.items|
  {
    match TryGet(q)
    case None => []
    case Some((x, rest)) => [x] + Drain(rest)
  }

  /** Non-blocking puts of `xs`, in order, into a queue with room for all of them. */
  function Fill<T>(q: Queue<T>, xs: seq<T>): (r: Queue<T>)
    requires q.maxsize <= 0 || |q.items| + |xs| <= q.maxsize
    decreases |xs|
  {
    if |xs| == 0 then q
    else
      match TryPut(q, xs[0])
      case Some(q') => Fill(q', xs[1..])
      case None => q
  }

  /** Draining a queue hands out exactly its items, oldest first. */
  lemma {:induction false} DrainIsContents<T>(q: Queue<T>)
    ensures Drain(q) == q.items
    decreases |q.items|
  {
    match TryGet(q)
    case None =>
    case Some((x, rest)) =>
      DrainIsContents(rest);
      assert q.items == [x] + rest.items;
  }

  /** Puts into a queue with room append, in order, and never fail. */
  lemma {:induction false} FillAppends<T>(q: Queue<T>, xs: seq<T>)
    requires q.maxsize <= 0 || |q.items| + |xs| <= q.maxsize
    ensures Fill(q, xs).items == q.items + xs
    ensures Fill(q, xs).maxsize == q.maxsize
    decreases |xs|
  {
    if |xs| > 0 {
      var q' := TryPut(q, xs[0]).value;
      FillAppends(q', xs[1..]);
      assert q.items + [xs[0]] + xs[1..] == q.items + xs;
    }
  }

  /** FIFO: items put into an empty queue come out in the order they went in. */
  lemma FifoRoundTrip<T>(maxsize: int, xs: seq<T>)
    requires maxsize <= 0 || |xs| <= maxsize
    ensures Drain(Fill(NewQueue(maxsize), xs)) == xs
  {
    var q: Queue<T> := NewQueue(maxsize);
    FillAppends(q, xs);
    DrainIsContents(Fill(q, xs));
  }
}
