/**
 * `SORTLogic`, the tracking routine: each tick takes one detection result
 * without blocking, hands it to the tracker, evicts whatever is waiting in
 * the output queue (counting it) and puts the tracked result.
 */
module SortTracking {
  import opened Wrappers
  import opened Queues

  /** The two queues of the routine and its `state.dropped` counter. */
  datatype SortRoutine<I, O> = SortRoutine(inQueue: Queue<I>, outQueue: Queue<O>, dropped: nat)

  /**
   * One `main_logic` tick; `track` stands for `InstancesSort.update_instances`.
   * The final `put` is the blocking one; the eviction before it always
   * leaves room, so it never waits.
   */
  function SortTick<I, O>(s: SortRoutine<I, O>, track: I -> O): (r: (SortRoutine<I, O>, bool))
    ensures s.inQueue.IsEmpty() <==> !r.1
    ensures !r.1 ==> r.0 == s
    ensures r.1 ==>
              && r.0.inQueue.items == s.inQueue.items[1..]
              && r.0.inQueue.maxsize == s.inQueue.maxsize
              && r.0.outQueue.maxsize == s.outQueue.maxsize
              && (s.outQueue.IsEmpty() ==>
                    r.0.outQueue.items == [track(s.inQueue.items[0])] && r.0.dropped == s.dropped)
              && (!s.outQueue.IsEmpty() ==>
                    r.0.outQueue.items == s.outQueue.items[1..] + [track(s.inQueue.items[0])]
                    && r.0.dropped == s.dropped + 1)
    ensures r.1 ==> |r.0.outQueue.items| > 0
                    && r.0.outQueue.items[|r.0.outQueue.items| - 1] == track(s.inQueue.items[0])
    ensures r.1 && s.outQueue.maxsize == 1 ==> r.0.outQueue.items == [track(s.inQueue.items[0])]
    ensures r.0.dropped >= s.dropped
    ensures r.1 ==> |r.0.outQueue.items| + r.0.dropped == |s.outQueue.items| + s.dropped + 1
  {
    match TryGet(s.inQueue)
    case None => (s, false)
    case Some((instances, inRest)) =>
      var tracked := track(instances);
      var evicted := match TryGet(s.outQueue)
                     case Some((_, outRest)) => (outRest, s.dropped + 1)
                     case None => (s.outQueue, s.dropped);
      (SortRoutine(inRest, Put(evicted.0, tracked), evicted.1), true)
  }

  /**
   * What can happen around the routine between its ticks: the upstream
   * routine offers a detection result (a non-blocking put, lost when the
   * input queue is full), the routine ticks, or the downstream routine takes
   * a result.
   */
  datatype Step<I> = Offer(detections: I) | Tick | Take

  function Apply<I, O>(s: SortRoutine<I, O>, step: Step<I>, track: I -> O): SortRoutine<I, O>
  {
    match step
    case Offer(x) =>
      (match TryPut(s.inQueue, x)
       case Some(q) => s.(inQueue := q)
       case None => s)
    case Tick => SortTick(s, track).0
    case Take =>
      (match TryGet(s.outQueue)
       case Some((_, q)) => s.(outQueue := q)
       case None => s)
  }

  function RunSteps<I, O>(s: SortRoutine<I, O>, steps: seq<Step<I>>, track: I -> O): SortRoutine<I, O>
    decreases |steps|
  {
    if |steps| == 0 then s else RunSteps(Apply(s, steps[0], track), steps[1..], track)
  }

  function CountTicks<I>(steps: seq<Step<I>>): nat
  {
    if |steps| == 0 then 0 else (if steps[0].Tick? then 1 else 0) + CountTicks(steps[1..])
  }

  /**
   * Across any interleaving of ticks, upstream offers and downstream takes,
   * the drop counter never decreases and grows by at most one per tick.
   */
  lemma {:induction false} DroppedIsMonotone<I, O>(s: SortRoutine<I, O>, steps: seq<Step<I>>, track: I -> O)
    ensures s.dropped <= RunSteps(s, steps, track).dropped <= s.dropped + CountTicks(steps)
    decreases |steps|
  {
    if |steps| > 0 {
      DroppedIsMonotone(Apply(s, steps[0], track), steps[1..], track);
    }
  }

  /**
   * With a capacity-1 output queue a downstream take right after a tick
   * always gets the result of that tick, whatever was waiting before.
   */
  lemma {:induction false} TakeAfterTickIsFreshest<I, O>(s: SortRoutine<I, O>, track: I -> O)
    requires s.outQueue.maxsize == 1
    requires !s.inQueue.IsEmpty()
    ensures TryGet(SortTick(s, track).0.outQueue).Some?
    ensures TryGet(SortTick(s, track).0.outQueue).value.0 == track(s.inQueue.items[0])
    ensures TryGet(SortTick(s, track).0.outQueue).value.1.IsEmpty()
  {
  }
}
