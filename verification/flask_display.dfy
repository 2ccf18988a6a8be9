/**
 * The two routines of `FlaskVideoDisplay` and the component that wires
 * them: `MetaAndFrameFromRedis` puts the newest (frame, prediction) pair into
 * a capacity-1 queue, `VisLogic` annotates it and moves it into a second
 * capacity-1 queue for the HTTP stream, counting every frame it evicts.
 */
module FlaskDisplay {
  import opened Wrappers
  import opened Queues
  import opened Envelopes
  import Components

  /** The image and envelope work the routines call into, left uninterpreted. */
  datatype Collaborators<!P> = Collaborators(
    mirror: P -> P,                          // cv2.flip(arr, 1)
    invert: P -> P,                          // 255 - arr
    draw: (P, P) -> P,                       // draw_instance_predictions(frame, pred).get_image()
    isEmpty: Message<P> -> bool,             // Message.is_empty()
    recordExit: Message<P> -> Message<P>)    // Message.record_exit(component_name, logger)

  /** A queued frame message with the prediction message fetched with it, if any. */
  type FramePair<P> = (Message<P>, Option<Message<P>>)

  // ------------------------------------------------ MetaAndFrameFromRedis

  /** The queue and display flags of a `MetaAndFrameFromRedis` routine. */
  datatype Grabber<P> = Grabber(queue: Queue<FramePair<P>>, flip: bool, negative: bool)

  /** The frame payload after the optional mirror and then the optional negative. */
  function TransformFrame<P>(arr: P, flip: bool, negative: bool, io: Collaborators<P>): P
  {
    var mirrored := if flip then io.mirror(arr) else arr;
    if negative then io.invert(mirrored) else mirrored
  }

  /** The pair the grabber queues for a received frame. */
  function Grabbed<P>(g: Grabber<P>, predMsg: Option<Message<P>>, frame: Message<P>, io: Collaborators<P>): FramePair<P>
  {
    (frame.(payload := TransformFrame(frame.payload, g.flip, g.negative, io)), predMsg)
  }

  /**
   * One `main_logic` tick, given what the two `receive_msg` calls returned.
   * Without a frame nothing happens. With one, any queued pair is thrown
   * away uncounted and the fresh pair put in its place.
   */
  function GrabTick<P>(g: Grabber<P>, predMsg: Option<Message<P>>, frameMsg: Option<Message<P>>,
                       io: Collaborators<P>): (r: (Grabber<P>, bool))
    ensures frameMsg.None? <==> !r.1
    ensures frameMsg.None? ==> r.0 == g
    ensures frameMsg.Some? ==>
              && r.0 == g.(queue := r.0.queue)
              && r.0.queue.maxsize == g.queue.maxsize
              && r.0.queue.items == (if g.queue.IsEmpty() then [] else g.queue.items[1..])
                                    + [Grabbed(g, predMsg, frameMsg.value, io)]
  {
    match frameMsg
    case None => (g, false)
    case Some(frame) =>
      var room := match TryGet(g.queue)
                  case Some((_, rest)) => rest
                  case None => g.queue;
      (g.(queue := Put(room, Grabbed(g, predMsg, frame, io))), true)
  }

  /**
   * On its capacity-1 queue the grabber always leaves exactly the newest
   * pair, and its frame keeps its provenance; with both flags off the
   * payload is untouched.
   */
  lemma {:induction false} GrabberKeepsNewest<P>(g: Grabber<P>, predMsg: Option<Message<P>>, frame: Message<P>,
                                                 io: Collaborators<P>)
    requires g.queue.maxsize == 1
    ensures |GrabTick(g, predMsg, Some(frame), io).0.queue.items| == 1
    ensures GrabTick(g, predMsg, Some(frame), io).0.queue.items[0].0.history == frame.history
    ensures GrabTick(g, predMsg, Some(frame), io).0.queue.items[0].1 == predMsg
    ensures !g.flip && !g.negative ==> GrabTick(g, predMsg, Some(frame), io).0.queue.items[0].0 == frame
  {
  }

  // -------------------------------------------------------------- VisLogic

  /** The queues and the `state.dropped` counter of a `VisLogic` routine. */
  datatype Visualiser<P> = Visualiser(inQueue: Queue<FramePair<P>>, outQueue: Queue<Message<P>>, dropped: nat)

  /** `setup`: the drop counter starts at zero. */
  function VisSetup<P>(v: Visualiser<P>): (r: Visualiser<P>)
    ensures r.dropped == 0 && r.inQueue == v.inQueue && r.outQueue == v.outQueue
  {
    v.(dropped := 0)
  }

  /**
   * The frame message as annotated before `record_exit`: with a present,
   * non-empty prediction its payload is the drawn image and its history the
   * prediction's; otherwise it is the frame message itself.
   */
  function Annotate<P>(frame: Message<P>, pred: Option<Message<P>>, io: Collaborators<P>): (m: Message<P>)
    ensures pred.None? || io.isEmpty(pred.value) ==> m == frame
    ensures pred.Some? && !io.isEmpty(pred.value) ==>
              m.history == pred.value.history && m.payload == io.draw(frame.payload, pred.value.payload)
  {
    match pred
    case Some(p) =>
      if io.isEmpty(p) then frame
      else Message(io.draw(frame.payload, p.payload), p.history)
    case None => frame
  }

  /** The message `VisLogic` forwards for one queued pair. */
  function Forwarded<P>(item: FramePair<P>, io: Collaborators<P>): Message<P>
  {
    io.recordExit(Annotate(item.0, item.1, io))
  }

  /**
   * One `main_logic` tick, branch for branch: take a pair without blocking;
   * put the annotated frame without blocking; on `Full`, evict the oldest
   * output and count it, then put again, ignoring a second `Full`.
   */
  function VisTick<P>(v: Visualiser<P>, io: Collaborators<P>): (r: (Visualiser<P>, bool))
    ensures v.inQueue.IsEmpty() <==> !r.1
    ensures !r.1 ==> r.0 == v
    ensures r.1 ==>
              && r.0.inQueue.items == v.inQueue.items[1..]
              && r.0.inQueue.maxsize == v.inQueue.maxsize
              && r.0.outQueue.maxsize == v.outQueue.maxsize
              && (!v.outQueue.IsFull() ==>
                    r.0.outQueue.items == v.outQueue.items + [Forwarded(v.inQueue.items[0], io)]
                    && r.0.dropped == v.dropped)
              && (v.outQueue.IsFull() ==>
                    r.0.outQueue.items == v.outQueue.items[1..] + [Forwarded(v.inQueue.items[0], io)]
                    && r.0.dropped == v.dropped + 1)
    ensures r.1 ==> |r.0.outQueue.items| > 0
                    && r.0.outQueue.items[|r.0.outQueue.items| - 1] == Forwarded(v.inQueue.items[0], io)
    ensures r.1 ==> |r.0.outQueue.items| + r.0.dropped == |v.outQueue.items| + v.dropped + 1
  {
    match TryGet(v.inQueue)
    case None => (v, false)
    case Some((item, inRest)) =>
      var msg := Forwarded(item, io);
      match TryPut(v.outQueue, msg)
      case Some(out) => (v.(inQueue := inRest, outQueue := out), true)
      case None =>
        var evicted := match TryGet(v.outQueue)
                       case Some((_, outRest)) => (outRest, v.dropped + 1)
                       case None => (v.outQueue, v.dropped);
        var out := match TryPut(evicted.0, msg)
                   case Some(q) => q
                   case None => evicted.0;
        (Visualiser(inRest, out, evicted.1), true)
  }

  // ---------------------------------------------------- FlaskVideoDisplay

  /** Name given to the frame grabber routine. */
  const GrabberName := "get_frames_and_preds"

  /**
   * A `FlaskVideoDisplay`: the base component, the grabber's flags, the two
   * capacity-1 queues shared by the routines, and the visualiser's counter.
   */
  datatype Display<P> = Display(
    base: Components.Component<FramePair<P>>,
    flip: bool,
    negative: bool,
    queue: Queue<FramePair<P>>,
    queue2: Queue<Message<P>>,
    dropped: nat)

  /**
   * The constructor: two capacity-1 queues, the grabber and the visualiser
   * registered in that order, then the HTTP server process. The queues are
   * attributes of the display, not entries of the component's queue map.
   * The model starts the visualiser's counter at 0; `setup` sets it to 0 again.
   */
  function NewDisplay<P>(name: string, stopEvent: Components.EventId, visName: string, serverName: string): (d: Display<P>)
    ensures d.base.name == name && d.base.stopEvent == stopEvent
    ensures d.base.stopSet && d.base.queues == map[]
    ensures d.base.workers == [Components.Routine(GrabberName, Some(stopEvent)),
                               Components.Routine(visName, Some(stopEvent)),
                               Components.Opaque(serverName, Components.ProcessKind)]
    ensures Components.RoutinesBound(d.base)
    ensures d.queue.IsEmpty() && d.queue.maxsize == 1
    ensures d.queue2.IsEmpty() && d.queue2.maxsize == 1
    ensures !d.flip && !d.negative
    ensures d.dropped == 0
  {
    var c0 := Components.New(name, stopEvent);
    var r1 := Components.RegisterRoutine(c0, Components.Routine(GrabberName, None));
    var r2 := Components.RegisterRoutine(r1.value.0, Components.Routine(visName, None));
    var r3 := Components.RegisterRoutine(r2.value.0, Components.Opaque(serverName, Components.ProcessKind));
    Display(r3.value.0, false, false, NewQueue(1), NewQueue(1), 0)
  }

  /**
   * `remove_routine` on a display removes the named routine and also the
   * server process, which is not a `Routine`.
   */
  lemma {:induction false} DisplayRemoveDropsServer<P>(name: string, stopEvent: Components.EventId,
                                                      visName: string, serverName: string)
    requires visName != GrabberName
    ensures Components.RemoveRoutine(NewDisplay<P>(name, stopEvent, visName, serverName).base, visName).workers
         == [Components.Routine(GrabberName, Some(stopEvent))]
  {
  }

  /** `flip_im`: toggle the grabber's mirror flag. */
  function FlipIm<P>(d: Display<P>): (r: Display<P>)
    ensures r.flip != d.flip
    ensures r.(flip := d.flip) == d
  {
    d.(flip := !d.flip)
  }

  /** `negative`: toggle the grabber's negative flag. */
  function Negative<P>(d: Display<P>): (r: Display<P>)
    ensures r.negative != d.negative
    ensures r.(negative := d.negative) == d
  {
    d.(negative := !d.negative)
  }

  /** Each toggle undoes itself, and the two toggles commute. */
  lemma {:induction false} TogglesAreInvolutions<P>(d: Display<P>)
    ensures FlipIm(FlipIm(d)) == d
    ensures Negative(Negative(d)) == d
    ensures FlipIm(Negative(d)) == Negative(FlipIm(d))
  {
  }

  /** The grabber as it sees the display. */
  function GrabberOf<P>(d: Display<P>): Grabber<P>
  {
    Grabber(d.queue, d.flip, d.negative)
  }

  /** The visualiser as it sees the display. */
  function VisualiserOf<P>(d: Display<P>): Visualiser<P>
  {
    Visualiser(d.queue, d.queue2, d.dropped)
  }

  /** `setup` of the visualiser, on the display. */
  function SetupDisplay<P>(d: Display<P>): Display<P>
  {
    d.(dropped := VisSetup(VisualiserOf(d)).dropped)
  }

  /** One frame arriving: a grabber tick that receives `frame` (and `pred`), then a visualiser tick. */
  function Round<P>(d: Display<P>, pred: Option<Message<P>>, frame: Message<P>, io: Collaborators<P>): Display<P>
  {
    var g := GrabTick(GrabberOf(d), pred, Some(frame), io).0;
    var v := VisTick(VisualiserOf(d.(queue := g.queue)), io).0;
    d.(queue := v.inQueue, queue2 := v.outQueue, dropped := v.dropped)
  }

  /** Frames arriving one after the other with nobody reading the output queue. */
  function Rounds<P>(d: Display<P>, inputs: seq<(Option<Message<P>>, Message<P>)>, io: Collaborators<P>): Display<P>
    decreases |inputs|
  {
    if |inputs| == 0 then d
    else Rounds(Round(d, inputs[0].0, inputs[0].1, io), inputs[1..], io)
  }

  /** What the display shows for a frame received with a prediction. */
  function Shown<P>(d: Display<P>, input: (Option<Message<P>>, Message<P>), io: Collaborators<P>): Message<P>
  {
    Forwarded(Grabbed(GrabberOf(d), input.0, input.1, io), io)
  }

  /** One round on the capacity-1 wiring moves the frame straight through and counts what it displaces. */
  lemma {:induction false} RoundReplacesOutput<P>(d: Display<P>, pred: Option<Message<P>>, frame: Message<P>,
                                                  io: Collaborators<P>)
    requires d.queue.IsEmpty() && d.queue.maxsize == 1 && d.queue2.maxsize == 1
    ensures Round(d, pred, frame, io).queue.IsEmpty()
    ensures Round(d, pred, frame, io).queue.maxsize == 1 && Round(d, pred, frame, io).queue2.maxsize == 1
    ensures Round(d, pred, frame, io).queue2.items == [Shown(d, (pred, frame), io)]
    ensures Round(d, pred, frame, io).dropped == d.dropped + |d.queue2.items|
    ensures Round(d, pred, frame, io).flip == d.flip && Round(d, pred, frame, io).negative == d.negative
  {
  }

  /**
   * Freshness, with one visualiser tick after each grabber tick: however many
   * frames arrive with no consumer, the output queue holds only the last one
   * and every earlier one is counted as dropped.
   */
  lemma {:induction false} RoundsKeepNewest<P>(d: Display<P>, inputs: seq<(Option<Message<P>>, Message<P>)>,
                                               io: Collaborators<P>)
    requires d.queue.IsEmpty() && d.queue.maxsize == 1 && d.queue2.maxsize == 1
    requires |inputs| > 0
    ensures Rounds(d, inputs, io).queue.IsEmpty()
    ensures Rounds(d, inputs, io).queue2.items == [Shown(d, inputs[|inputs| - 1], io)]
    ensures Rounds(d, inputs, io).dropped == d.dropped + |d.queue2.items| + |inputs| - 1
    decreases |inputs|
  {
    var d1 := Round(d, inputs[0].0, inputs[0].1, io);
    RoundReplacesOutput(d, inputs[0].0, inputs[0].1, io);
    if |inputs| > 1 {
      RoundsKeepNewest(d1, inputs[1..], io);
      assert inputs[1..][|inputs[1..]| - 1] == inputs[|inputs| - 1];
      assert Shown(d1, inputs[|inputs| - 1], io) == Shown(d, inputs[|inputs| - 1], io);
    }
  }

  /** Rounds keep the queue sizes and the grabber flags. */
  lemma {:induction false} RoundsKeepBounds<P>(d: Display<P>, inputs: seq<(Option<Message<P>>, Message<P>)>,
                                               io: Collaborators<P>)
    ensures Rounds(d, inputs, io).queue.maxsize == d.queue.maxsize
    ensures Rounds(d, inputs, io).queue2.maxsize == d.queue2.maxsize
    ensures Rounds(d, inputs, io).flip == d.flip && Rounds(d, inputs, io).negative == d.negative
    decreases |inputs|
  {
    if |inputs| > 0 {
      RoundsKeepBounds(Round(d, inputs[0].0, inputs[0].1, io), inputs[1..], io);
    }
  }

  /**
   * Five frames into a freshly built and set-up display, with one visualiser
   * tick after each grabber tick and nobody reading: the stream then gets the
   * fifth frame and the counter reads 4.
   */
  lemma {:induction false} FiveFramesScenario<P>(name: string, stopEvent: Components.EventId, visName: string,
                                                 serverName: string, inputs: seq<(Option<Message<P>>, Message<P>)>,
                                                 io: Collaborators<P>)
    requires |inputs| == 5
    ensures Rounds(SetupDisplay(NewDisplay(name, stopEvent, visName, serverName)), inputs, io).dropped == 4
    ensures TryGet(Rounds(SetupDisplay(NewDisplay(name, stopEvent, visName, serverName)), inputs, io).queue2)
         == Some((Shown(NewDisplay(name, stopEvent, visName, serverName), inputs[4], io), NewQueue(1)))
  {
    var d0 := NewDisplay<P>(name, stopEvent, visName, serverName);
    var d := SetupDisplay(d0);
    RoundsKeepNewest(d, inputs, io);
    assert Shown(d, inputs[4], io) == Shown(d0, inputs[4], io);
    var out := Rounds(d, inputs, io).queue2;
    assert out.maxsize == 1 by { RoundsKeepBounds(d, inputs, io); }
    assert TryGet(out).value.1 == NewQueue(1);
  }

  /**
   * Outside the alternating schedule: two grabber ticks before a visualiser
   * tick lose the first frame, and nothing counts it.
   */
  lemma {:induction false} DoubleGrabLosesUncounted<P>(d: Display<P>, pred1: Option<Message<P>>, frame1: Message<P>,
                                                      pred2: Option<Message<P>>, frame2: Message<P>,
                                                      io: Collaborators<P>)
    requires d.queue.IsEmpty() && d.queue.maxsize == 1
    ensures GrabTick(GrabTick(GrabberOf(d), pred1, Some(frame1), io).0, pred2, Some(frame2), io).0.queue.items
         == [Grabbed(GrabberOf(d), pred2, frame2, io)]
    ensures VisTick(VisualiserOf(d.(queue := GrabTick(GrabTick(GrabberOf(d), pred1, Some(frame1), io).0,
                                                          pred2, Some(frame2), io).0.queue)), io).0.dropped
         == d.dropped + (if d.queue2.IsFull() then 1 else 0)
  {
  }
}
