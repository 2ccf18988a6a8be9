/**
 * `BaseComponent`: the stop flag, the named queues and the ordered list of
 * registered workers of one pipeline component, with the bookkeeping
 * operations on them and the flag/status skeleton of running and stopping.
 */
module Components {
  import opened Wrappers
  import opened Queues

  /**
   * Identity of a stop `Event` object. Routines bound to the same identity
   * observe one shared flag.
   */
  type EventId = nat

  datatype WorkerKind = ProcessKind | ThreadKind

  /**
   * A registered worker: a genuine `Routine` with its optional stop-event
   * binding, or an opaque `Process`/`Thread` tracked only to be joined.
   */
  datatype Worker =
    | Routine(name: string, stopEvent: Option<EventId>)
    | Opaque(name: string, kind: WorkerKind)

  /** The exceptions the bookkeeping raises. */
  datatype Error = RegisteredException | QueueDoesNotExist(queueName: string)

  datatype Component<T> = Component(
    name: string,
    stopEvent: EventId,
    stopSet: bool,
    queues: map<string, Queue<T>>,
    workers: seq<Worker>)

  /** `queue_size` when `create_queue` is called without one. */
  const DefaultQueueSize := 1

  /** `BaseComponent(name=...)`, whose fresh stop event is `stopEvent`. */
  function New<T>(name: string, stopEvent: EventId): Component<T>
  {
    Component(name, stopEvent, true, map[], [])
  }

  /** Every genuine routine in the list is bound to this component's stop event. */
  ghost predicate RoutinesBound<T>(c: Component<T>)
  {
    forall i :: 0 <= i < |c.workers| && c.workers[i].Routine? ==>
      c.workers[i].stopEvent == Some(c.stopEvent)
  }

  ghost predicate HasWorkerNamed(ws: seq<Worker>, routineName: string)
  {
    exists i :: 0 <= i < |ws| && ws[i].name == routineName
  }

  /** A new component is stopped, owns no queue and no worker. */
  lemma {:induction false} NewComponentIsStopped<T>(name: string, stopEvent: EventId, queueName: string, routineName: string)
    ensures New<T>(name, stopEvent).stopSet
    ensures GetQueue(New<T>(name, stopEvent), queueName) == Failure(QueueDoesNotExist(queueName))
    ensures DeleteQueue(New<T>(name, stopEvent), queueName) == Failure(QueueDoesNotExist(queueName))
    ensures !HasWorkerNamed(New<T>(name, stopEvent).workers, routineName)
    ensures RoutinesBound(New<T>(name, stopEvent))
  {
  }

  // ---------------------------------------------------------------- queues

  /**
   * `create_queue(queue_name, queue_size)`. The second component is the
   * Python return value: `Some(false)` for a name already taken, `None`
   * (no explicit return) when the queue was created.
   */
  function CreateQueue<T>(c: Component<T>, queueName: string, queueSize: int): (r: (Component<T>, Option<bool>))
    ensures queueName in c.queues <==> r.1 == Some(false)
    ensures queueName !in c.queues <==> r.1 == None
    ensures r.1 == Some(false) ==> r.0 == c
    ensures r.1 == None ==>
              && r.0.queues.Keys == c.queues.Keys + {queueName}
              && r.0.queues[queueName].IsEmpty()
              && r.0.queues[queueName].maxsize == queueSize
              && (forall k :: k in c.queues ==> r.0.queues[k] == c.queues[k])
              && r.0 == c.(queues := r.0.queues)
  {
    if queueName in c.queues then (c, Some(false))
    else (c.(queues := c.queues[queueName := NewQueue(queueSize)]), None)
  }

  /** `create_queue(queue_name)` with the default `queue_size`. */
  function CreateQueueDefault<T>(c: Component<T>, queueName: string): (r: (Component<T>, Option<bool>))
    ensures queueName in c.queues <==> r.1 == Some(false)
    ensures queueName !in c.queues <==> r.1 == None
    ensures r.1 == Some(false) ==> r.0 == c
    ensures r.1 == None ==>
              && GetQueue(r.0, queueName) == Success(NewQueue(1))
              && r.0.queues.Keys == c.queues.Keys + {queueName}
              && (forall k :: k in c.queues ==> r.0.queues[k] == c.queues[k])
              && r.0 == c.(queues := r.0.queues)
  {
    CreateQueue(c, queueName, DefaultQueueSize)
  }

  /** `get_queue(queue_name)`. */
  function GetQueue<T>(c: Component<T>, queueName: string): (r: Result<Queue<T>, Error>)
    ensures r.Success? <==> queueName in c.queues
    ensures r.Success? ==> r.value == c.queues[queueName]
    ensures r.Failure? ==> r.error == QueueDoesNotExist(queueName)
  {
    if queueName in c.queues then Success(c.queues[queueName])
    else Failure(QueueDoesNotExist(queueName))
  }

  /** `does_queue_exist(queue_name)`. */
  predicate DoesQueueExist<T>(c: Component<T>, queueName: string)
  {
    queueName in c.queues
  }

  /** `delete_queue(queue_name)`: the component without the queue, and `True`. */
  function DeleteQueue<T>(c: Component<T>, queueName: string): (r: Result<(Component<T>, bool), Error>)
    ensures r.Success? <==> queueName in c.queues
    ensures r.Success? ==>
              && r.value.1
              && r.value.0.queues.Keys == c.queues.Keys - {queueName}
              && (forall k :: k in r.value.0.queues ==> r.value.0.queues[k] == c.queues[k])
              && r.value.0 == c.(queues := r.value.0.queues)
    ensures r.Failure? ==> r.error == QueueDoesNotExist(queueName)
  {
    if queueName in c.queues then Success((c.(queues := c.queues - {queueName}), true))
    else Failure(QueueDoesNotExist(queueName))
  }

  /** The three queue queries agree: a name exists iff it can be fetched iff it can be deleted. */
  lemma {:induction false} QueueQueriesAgree<T>(c: Component<T>, queueName: string)
    ensures DoesQueueExist(c, queueName) <==> GetQueue(c, queueName).Success?
    ensures DoesQueueExist(c, queueName) <==> DeleteQueue(c, queueName).Success?
  {
  }

  /** Creating a queue makes it exist, fetchable, empty and of the requested size. */
  lemma {:induction false} CreateThenGet<T>(c: Component<T>, queueName: string, queueSize: int)
    requires queueName !in c.queues
    ensures DoesQueueExist(CreateQueue(c, queueName, queueSize).0, queueName)
    ensures GetQueue(CreateQueue(c, queueName, queueSize).0, queueName) == Success(NewQueue(queueSize))
  {
  }

  /**
   * A second `create_queue` of a name returns `False` and leaves the first
   * queue, contents and size, as it was.
   */
  lemma {:induction false} CreateTwiceKeepsFirst<T>(c: Component<T>, queueName: string, size1: int, size2: int)
    ensures CreateQueue(CreateQueue(c, queueName, size1).0, queueName, size2).1 == Some(false)
    ensures GetQueue(CreateQueue(CreateQueue(c, queueName, size1).0, queueName, size2).0, queueName)
         == GetQueue(CreateQueue(c, queueName, size1).0, queueName)
  {
  }

  /** Deleting a queue just created on a fresh name gives back the original component. */
  lemma {:induction false} CreateThenDeleteRestores<T>(c: Component<T>, queueName: string, queueSize: int)
    requires queueName !in c.queues
    ensures DeleteQueue(CreateQueue(c, queueName, queueSize).0, queueName) == Success((c, true))
  {
    var c' := CreateQueue(c, queueName, queueSize).0;
    assert c'.queues - {queueName} == c.queues;
  }

  /** After `delete_queue` the name neither exists nor can be fetched or deleted again. */
  lemma {:induction false} DeleteThenGetFails<T>(c: Component<T>, queueName: string)
    requires queueName in c.queues
    ensures !DoesQueueExist(DeleteQueue(c, queueName).value.0, queueName)
    ensures GetQueue(DeleteQueue(c, queueName).value.0, queueName) == Failure(QueueDoesNotExist(queueName))
    ensures DeleteQueue(DeleteQueue(c, queueName).value.0, queueName) == Failure(QueueDoesNotExist(queueName))
  {
  }

  // ------------------------------------------------------------- routines

  /**
   * `register_routine(routine)`. The second component of a success is the
   * routine as the caller holds it afterwards: an unbound `Routine` comes
   * back bound to this component's stop event.
   */
  function RegisterRoutine<T>(c: Component<T>, w: Worker): (r: Result<(Component<T>, Worker), Error>)
    ensures w.Routine? && w.stopEvent.Some? <==> r.Failure?
    ensures r.Failure? ==> r.error == RegisteredException
    ensures r.Success? ==>
              && r.value.0 == c.(workers := c.workers + [r.value.1])
              && r.value.1.name == w.name
              && (w.Routine? ==> r.value.1 == Routine(w.name, Some(c.stopEvent)))
              && (w.Opaque? ==> r.value.1 == w)
  {
    match w
    case Routine(n, None) =>
      var bound := Routine(n, Some(c.stopEvent));
      Success((c.(workers := c.workers + [bound]), bound))
    case Routine(_, Some(_)) => Failure(RegisteredException)
    case Opaque(_, _) => Success((c.(workers := c.workers + [w]), w))
  }

  /**
   * Bind-once: a routine that one registration accepted is refused by every
   * later registration, to this component or any other.
   */
  lemma {:induction false} RegisterTwiceFails<T, U>(c: Component<T>, other: Component<U>, w: Worker)
    requires w.Routine?
    requires RegisterRoutine(c, w).Success?
    ensures RegisterRoutine(other, RegisterRoutine(c, w).value.1) == Failure(RegisteredException)
  {
  }

  /** An opaque worker is accepted every time, and then tracked twice. */
  lemma {:induction false} OpaqueRegistersTwice<T>(c: Component<T>, w: Worker)
    requires w.Opaque?
    ensures RegisterRoutine(c, w).Success?
    ensures RegisterRoutine(RegisterRoutine(c, w).value.0, w).Success?
    ensures RegisterRoutine(RegisterRoutine(c, w).value.0, w).value.0.workers == c.workers + [w, w]
  {
  }

  /** Registering keeps every listed routine bound to the component's stop event. */
  lemma {:induction false} RegisterKeepsRoutinesBound<T>(c: Component<T>, w: Worker)
    requires RoutinesBound(c)
    requires RegisterRoutine(c, w).Success?
    ensures RoutinesBound(RegisterRoutine(c, w).value.0)
  {
  }

  /** `does_routine_name_exist(routine_name)`: a scan of every worker, opaque ones included. */
  method DoesRoutineNameExist<T>(c: Component<T>, routineName: string) returns (found: bool)
    ensures found <==> HasWorkerNamed(c.workers, routineName)
  {
    for i := 0 to |c.workers|
      invariant forall j :: 0 <= j < i ==> c.workers[j].name != routineName
    {
      if c.workers[i].name == routineName {
        return true;
      }
    }
    return false;
  }

  /** `a` can be obtained from `b` by deleting elements: the order of `a` is the order in `b`. */
  ghost predicate IsSubsequence<X>(a: seq<X>, b: seq<X>)
    decreases |b|
  {
    && |a| <= |b|
    && (|a| == 0
        || (&& |b| > 0
            && ((a[0] == b[0] && IsSubsequence(a[1..], b[1..])) || IsSubsequence(a, b[1..]))))
  }

  /** The filter of `remove_routine`: a worker survives iff it is a `Routine` not named `routineName`. */
  predicate Survives(w: Worker, routineName: string)
  {
    w.Routine? && w.name != routineName
  }

  /** The list comprehension of `remove_routine`. */
  function KeepRoutines(ws: seq<Worker>, routineName: string): (r: seq<Worker>)
    ensures forall i :: 0 <= i < |r| ==> Survives(r[i], routineName)
    ensures IsSubsequence(r, ws)
    ensures forall w :: multiset(r)[w] == if Survives(w, routineName) then multiset(ws)[w] else 0
  {
    if |ws| == 0 then []
    else
      var rest := KeepRoutines(ws[1..], routineName);
      assert ws == [ws[0]] + ws[1..];
      if Survives(ws[0], routineName) then
        assert ([ws[0]] + rest)[1..] == rest;
        [ws[0]] + rest
      else
        rest
  }

  /**
   * `remove_routine(routine_name)`: keeps, in order and with multiplicity,
   * exactly the genuine routines with another name. Opaque workers are
   * discarded whatever their name.
   */
  function RemoveRoutine<T>(c: Component<T>, routineName: string): (r: Component<T>)
    ensures r == c.(workers := r.workers)
    ensures forall i :: 0 <= i < |r.workers| ==> Survives(r.workers[i], routineName)
    ensures IsSubsequence(r.workers, c.workers)
    ensures forall w :: multiset(r.workers)[w] == if Survives(w, routineName) then multiset(c.workers)[w] else 0
  {
    c.(workers := KeepRoutines(c.workers, routineName))
  }

  lemma {:induction false} KeepRoutinesIdempotent(ws: seq<Worker>, routineName: string)
    ensures KeepRoutines(KeepRoutines(ws, routineName), routineName) == KeepRoutines(ws, routineName)
  {
    if |ws| > 0 {
      KeepRoutinesIdempotent(ws[1..], routineName);
      var rest := KeepRoutines(ws[1..], routineName);
      if Survives(ws[0], routineName) {
        assert ([ws[0]] + rest)[1..] == rest;
      }
    }
  }

  /**
   * After `remove_routine(n)` no worker is named `n`, no opaque worker is
   * left, and removing `n` again changes nothing.
   */
  lemma {:induction false} RemoveRoutineIsFinal<T>(c: Component<T>, routineName: string)
    ensures !HasWorkerNamed(RemoveRoutine(c, routineName).workers, routineName)
    ensures forall i :: 0 <= i < |RemoveRoutine(c, routineName).workers| ==>
              !RemoveRoutine(c, routineName).workers[i].Opaque?
    ensures RemoveRoutine(RemoveRoutine(c, routineName), routineName) == RemoveRoutine(c, routineName)
  {
    KeepRoutinesIdempotent(c.workers, routineName);
  }

  /**
   * Unlike a by-name removal, `remove_routine` of a name nobody carries still
   * shrinks a list that holds an opaque worker.
   */
  lemma {:induction false} RemoveRoutineDropsOpaque<T>(c: Component<T>, routineName: string, i: nat)
    requires i < |c.workers| && c.workers[i].Opaque?
    ensures |RemoveRoutine(c, routineName).workers| < |c.workers|
  {
    var r := RemoveRoutine(c, routineName).workers;
    var w := c.workers[i];
    assert multiset(r)[w] == 0;
    assert w in multiset(c.workers);
    SubsequenceLength(r, c.workers, w);
  }

  /** A subsequence missing an element of the longer sequence is strictly shorter. */
  lemma {:induction false} SubsequenceLength<X>(a: seq<X>, b: seq<X>, x: X)
    requires IsSubsequence(a, b)
    requires x in b && x !in a
    ensures |a| < |b|
    decreases |b|
  {
    if |a| == 0 {
    } else if a[0] == b[0] && IsSubsequence(a[1..], b[1..]) {
      assert x != b[0];
      assert x in b[1..] by { assert b == [b[0]] + b[1..]; }
      assert x !in a[1..] by { assert a == [a[0]] + a[1..]; }
      SubsequenceLength(a[1..], b[1..], x);
    } else {
      assert IsSubsequence(a, b[1..]);
    }
  }

  /** Removing routines keeps every listed routine bound. */
  lemma {:induction false} RemoveKeepsRoutinesBound<T>(c: Component<T>, routineName: string)
    requires RoutinesBound(c)
    ensures RoutinesBound(RemoveRoutine(c, routineName))
  {
  }

  // ------------------------------------------------------- run and stop

  /** What running and stopping do, in the order they do it. */
  datatype Event =
    | ClearStop
    | SetStop
    | Start(started: Worker)
    | InstallSigtermHandler
    | MetricsSetup
    | Teardown
    | Join(joined: Worker)

  function StartEvents(ws: seq<Worker>): (es: seq<Event>)
    ensures |es| == |ws| && forall i :: 0 <= i < |ws| ==> es[i] == Start(ws[i])
  {
    seq(|ws|, i requires 0 <= i < |ws| => Start(ws[i]))
  }

  function JoinEvents(ws: seq<Worker>): (es: seq<Event>)
    ensures |es| == |ws| && forall i :: 0 <= i < |ws| ==> es[i] == Join(ws[i])
  {
    seq(|ws|, i requires 0 <= i < |ws| => Join(ws[i]))
  }

  datatype RunResult<T> = RunResult(comp: Component<T>, trace: seq<Event>)

  /**
   * `run()`, which is `_run()`: clear the stop flag, start every worker in
   * registration order (`_start`), install the SIGTERM handler, set up
   * metrics, and return. Nothing waits for the flag to be set again.
   */
  function Run<T>(c: Component<T>): (r: RunResult<T>)
    ensures r.comp == c.(stopSet := false)
    ensures |r.trace| == |c.workers| + 3
    ensures r.trace[0] == ClearStop
    ensures forall i :: 0 <= i < |c.workers| ==> r.trace[i + 1] == Start(c.workers[i])
    ensures r.trace[|c.workers| + 1..] == [InstallSigtermHandler, MetricsSetup]
  {
    RunResult(c.(stopSet := false), [ClearStop] + StartEvents(c.workers) + [InstallSigtermHandler, MetricsSetup])
  }

  /** How `teardown_callback` or one `join()` ends. */
  datatype Outcome = Completed | RaisesRuntimeError | RaisesOther

  /** What `stop_run` gives its caller: a status code, or an exception it does not catch. */
  datatype StopReturn = Status(code: int) | Propagates

  datatype StopResult<T> = StopResult(comp: Component<T>, trace: seq<Event>, returned: StopReturn)

  /** Position of the first outcome that is not `Completed`, or the length when there is none. */
  function FirstFailure(outcomes: seq<Outcome>): (k: nat)
    ensures k <= |outcomes|
    ensures forall i :: 0 <= i < k ==> outcomes[i] == Completed
    ensures k < |outcomes| ==> outcomes[k] != Completed
  {
    if |outcomes| == 0 then 0
    else if outcomes[0] != Completed then 0
    else 1 + FirstFailure(outcomes[1..])
  }

  /** The status that stops the join loop at outcome `o`, which is not `Completed`. */
  function FailureReturn(o: Outcome): StopReturn
  {
    if o == RaisesRuntimeError then Status(1) else Propagates
  }

  /**
   * The join loop of `stop_run`: join each worker in turn; the first join
   * that raises ends the loop.
   */
  function JoinAll(ws: seq<Worker>, joins: seq<Outcome>): (r: (seq<Event>, StopReturn))
    requires |joins| == |ws|
    ensures FirstFailure(joins) == |ws| ==> r == (JoinEvents(ws), Status(0))
    ensures FirstFailure(joins) < |ws| ==>
              r == (JoinEvents(ws[..FirstFailure(joins) + 1]), FailureReturn(joins[FirstFailure(joins)]))
  {
    if |ws| == 0 then ([], Status(0))
    else if joins[0] != Completed then
      assert JoinEvents(ws[..1]) == [Join(ws[0])];
      ([Join(ws[0])], FailureReturn(joins[0]))
    else
      var rest := JoinAll(ws[1..], joins[1..]);
      var k := FirstFailure(joins[1..]);
      assert FirstFailure(joins) == k + 1;
      if k == |ws| - 1 then
        assert [Join(ws[0])] + JoinEvents(ws[1..]) == JoinEvents(ws);
        ([Join(ws[0])] + rest.0, rest.1)
      else
        assert ws[1..][..k + 1] == ws[1..k + 2];
        assert [Join(ws[0])] + JoinEvents(ws[1..k + 2]) == JoinEvents(ws[..k + 2]);
        ([Join(ws[0])] + rest.0, rest.1)
  }

  /**
   * `stop_run()`: set the stop flag, call the teardown hook, then join every
   * worker in registration order. Status 0 when all of that completes,
   * status 1 at the first `RuntimeError`, and any other exception escapes.
   * `joins[i]` is how joining the `i`-th worker ends.
   */
  function StopRun<T>(c: Component<T>, teardown: Outcome, joins: seq<Outcome>): (r: StopResult<T>)
    requires |joins| == |c.workers|
    ensures r.comp == c.(stopSet := true)
    ensures |r.trace| >= 2 && r.trace[..2] == [SetStop, Teardown]
    ensures r.returned == Status(0) <==>
              teardown == Completed && forall i :: 0 <= i < |joins| ==> joins[i] == Completed
    ensures r.returned == Status(1) <==>
              || teardown == RaisesRuntimeError
              || (teardown == Completed && FirstFailure(joins) < |joins|
                  && joins[FirstFailure(joins)] == RaisesRuntimeError)
    ensures r.returned.Status? ==> r.returned.code in {0, 1}
    ensures teardown != Completed ==> r.trace == [SetStop, Teardown]
    ensures teardown == Completed && FirstFailure(joins) == |joins| ==>
              r.trace[2..] == JoinEvents(c.workers)
    ensures teardown == Completed && FirstFailure(joins) < |joins| ==>
              r.trace[2..] == JoinEvents(c.workers[..FirstFailure(joins) + 1])
  {
    var stopped := c.(stopSet := true);
    match teardown
    case RaisesRuntimeError => StopResult(stopped, [SetStop, Teardown], Status(1))
    case RaisesOther => StopResult(stopped, [SetStop, Teardown], Propagates)
    case Completed =>
      var joined := JoinAll(c.workers, joins);
      assert ([SetStop, Teardown] + joined.0)[2..] == joined.0;
      StopResult(stopped, [SetStop, Teardown] + joined.0, joined.1)
  }

  /**
   * Stopping an already stopped component again, with the same outcomes,
   * gives the same status and joins the same workers.
   */
  lemma {:induction false} StopRunIsRepeatable<T>(c: Component<T>, teardown: Outcome, joins: seq<Outcome>)
    requires |joins| == |c.workers|
    ensures StopRun(StopRun(c, teardown, joins).comp, teardown, joins) == StopRun(c, teardown, joins)
  {
  }

  /**
   * Running then stopping with nothing failing joins every worker in the
   * order it was started, returns 0 and leaves the component as it was,
   * stop flag set again.
   */
  lemma {:induction false} RunThenStop<T>(c: Component<T>, joins: seq<Outcome>)
    requires c.stopSet
    requires |joins| == |c.workers|
    requires forall i :: 0 <= i < |joins| ==> joins[i] == Completed
    ensures !Run(c).comp.stopSet
    ensures StopRun(Run(c).comp, Completed, joins).comp == c
    ensures StopRun(Run(c).comp, Completed, joins).returned == Status(0)
    ensures StopRun(Run(c).comp, Completed, joins).trace[2..] == JoinEvents(c.workers)
  {
  }
}
