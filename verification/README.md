# PipeRT component bookkeeping and backpressure, in Dafny

PipeRT builds real-time video pipelines out of *routines* grouped into
*components*. This project models two sequential parts of that runtime and
proves properties about them.

1. **`BaseComponent` bookkeeping** (`component.dfy`, module `Components`).
   A component holds a stop flag (with the identity of its `Event`), a map
   from queue name to bounded queue, and an ordered list of registered
   workers. A worker is either a genuine `Routine` with an optional stop-event
   binding, or an opaque `Process`/`Thread`. The module covers queue
   creation, lookup, deletion and existence; routine registration with the
   bind-once rule; lookup and removal by name; and the flag and status-code
   skeleton of `_run` and `stop_run`. Exceptions are `Result` values. Starts
   and joins are events in a trace. Each join, and the teardown hook, has an
   abstract outcome: completes, raises `RuntimeError`, or raises something
   else.
2. **The evict-then-insert backpressure tick** of the producer routines.
   `flask_display.dfy` (module `FlaskDisplay`) has `MetaAndFrameFromRedis`,
   `VisLogic` and the `FlaskVideoDisplay` wiring with its two capacity-1
   queues. `sort_logic.dfy` (module `SortTracking`) has `SORTLogic`. Each
   tick is a pure function over the queues and the `dropped` counter. Image
   work, the visualiser, the tracker and envelope bookkeeping are function
   parameters that stay uninterpreted.

`queues.dfy` (module `Queues`) models Python's `Queue` as used from a single
thread. A queue is its items, oldest first, plus its `maxsize`; a `maxsize`
of zero or less means no bound, as in Python. The subset type `Queue<T>`
carries the bound invariant, so no operation can overfill a queue. The
blocking `put` requires room, and every caller proves there is room.
`envelopes.dfy` holds the message envelope: a payload and its history of hops.
`wrappers.dfy` holds `Option` and `Result`.

Behaviour worth noting, which the model follows:

- `create_queue` returns `None` on success, not `True`. Only a duplicate name
  returns `False`.
- `remove_routine` keeps only genuine routines with a different name, so it
  also discards every opaque worker, even one whose name differs from the one
  removed.
- `run` calls `_run` and returns. It does not wait for the stop flag.
- `stop_run` turns only `RuntimeError` into status 1. A `RuntimeError` from
  the teardown hook also gives 1, before any join. Any other exception
  escapes.
- `MetaAndFrameFromRedis` evicts a queued pair without counting it.
  `SORTLogic` evicts and counts whenever its output queue is non-empty, not
  only when it is full.

## Model

| member | source | states |
|---|---|---|
| `Queues.TryGet` | pipert/contrib/flask_display.py:97-98 | A non-blocking get fails exactly when the queue is empty. Otherwise it yields the oldest item and the rest of the queue, with the same bound. |
| `Queues.TryPut` | pipert/contrib/flask_display.py:107-110 | A non-blocking put fails exactly when the queue is full. Otherwise the item becomes the newest, behind the old contents. |
| `Queues.Put` | src/sort.py:57 | A blocking put is only valid on a queue with room, and it appends the item. |
| `Queues.FifoRoundTrip` | pipert/core/component.py:102 | Items put into a new queue (`Queues.NewQueue`, which models `Queue(maxsize=...)`) with room for them come out by repeated gets in the order they went in. |
| `Components.NewComponentIsStopped` | pipert/core/component.py:19-33 | About `Components.New`, which models `__init__`: a new component has its stop flag set. Every queue lookup or deletion on it raises `QueueDoesNotExist`. No worker is named, and the binding invariant holds. |
| `Components.CreateQueue` | pipert/core/component.py:98-102 | A taken name returns `False` and leaves the component as it was. A fresh name returns `None` and adds exactly one empty queue of the requested size. Every other queue and field is unchanged. |
| `Components.CreateQueueDefault` | pipert/core/component.py:98-102 | Without a size, a fresh name gets an empty queue of capacity 1 and the call returns `None`; a taken name returns `False` and changes nothing. |
| `Components.GetQueue` | pipert/core/component.py:104-108 | Lookup succeeds exactly for stored names, returning the stored queue. Any other name raises `QueueDoesNotExist` for that name. |
| `Components.DeleteQueue` | pipert/core/component.py:116-121 | Deletion succeeds exactly for stored names: it returns `True`, removes only that key and keeps every other queue. A missing name raises `QueueDoesNotExist`. |
| `Components.QueueQueriesAgree` | pipert/core/component.py:104-121 | `does_queue_exist`, modelled by `Components.DoesQueueExist`, holds exactly when `get_queue` succeeds, and exactly when `delete_queue` succeeds. |
| `Components.CreateThenGet` | pipert/core/component.py:98-108 | A queue created under a fresh name then exists, and lookup returns it empty with the requested size. |
| `Components.CreateTwiceKeepsFirst` | pipert/core/component.py:98-102 | A second `create_queue` of a name returns `False`, whatever size it asks for. The first queue keeps its contents and size. |
| `Components.CreateThenDeleteRestores` | pipert/core/component.py:98-121 | Deleting a queue just created under a fresh name gives back the original component and `True`. |
| `Components.DeleteThenGetFails` | pipert/core/component.py:104-121 | After a deletion the name no longer exists. Both a lookup and a second deletion then raise `QueueDoesNotExist`. |
| `Components.RegisterRoutine` | pipert/core/component.py:59-71 | Registration fails with `RegisteredException` exactly for a routine that already has a stop event. An unbound routine is bound to this component's event and appended. An opaque worker is appended unchanged. |
| `Components.RegisterTwiceFails` | pipert/core/component.py:66-70 | Once registration accepts a routine, every later registration of it fails, to this component or any other. |
| `Components.OpaqueRegistersTwice` | pipert/core/component.py:66-71 | A `Process`/`Thread` is accepted with no check every time, so registering it twice lists it twice. |
| `Components.RegisterKeepsRoutinesBound` | pipert/core/component.py:66-71 | If every listed routine is bound to the component's stop event, that still holds after a registration. |
| `Components.DoesRoutineNameExist` | pipert/core/component.py:123-127 | The scan answers true exactly when some registered worker, opaque ones included, has the name. |
| `Components.KeepRoutines` | pipert/core/component.py:130-132 | The comprehension keeps only routines with another name, in their original order. Each kept worker appears as often as in the input, and everything else appears zero times. |
| `Components.RemoveRoutine` | pipert/core/component.py:129-132 | Only the worker list changes. The new list is an order-preserving selection of exactly the genuine routines not named `n`, with their multiplicities. |
| `Components.RemoveRoutineIsFinal` | pipert/core/component.py:129-132 | After removal no worker carries the name and no opaque worker remains. Removing the same name again changes nothing. |
| `Components.RemoveRoutineDropsOpaque` | pipert/core/component.py:130-132 | Any list holding an opaque worker gets strictly shorter, even when no worker has the name. |
| `Components.RemoveKeepsRoutinesBound` | pipert/core/component.py:129-132 | Removal keeps every listed routine bound to the component's stop event. |
| `Components.Run` | pipert/core/component.py:35-57 | Running clears the stop flag before anything else. It starts every worker in registration order, installs the SIGTERM handler, sets up metrics and returns. The flag is still clear on return, so it does not block. |
| `Components.JoinAll` | pipert/core/component.py:88-96 | The join loop joins workers in order up to and including the first join that does not complete. It returns 0 when none fails, 1 when the first failure is a `RuntimeError`, and lets any other exception escape. |
| `Components.StopRun` | pipert/core/component.py:81-96 | The stop flag is set first and stays set, and the teardown hook runs next. The result is 0 exactly when the hook and every join complete, and 1 exactly when the first failure is a `RuntimeError`. Workers after the first failure are never joined. |
| `Components.StopRunIsRepeatable` | pipert/core/component.py:81-96 | Stopping an already stopped component again, with the same outcomes, gives the same state, trace and status. |
| `Components.RunThenStop` | pipert/core/component.py:50-96 | After a run, a stop where nothing fails gives back the component as it was before the run, flag set, and returns 0. It joins every worker in the order the run started them. |
| `FlaskDisplay.GrabTick` | pipert/contrib/flask_display.py:57-79 | Without a frame the tick reports no work and changes nothing. With a frame, it drops any queued pair without counting it. It then enqueues the frame, mirrored and/or negated as the flags say, with its prediction as the newest item, and reports work. |
| `FlaskDisplay.GrabberKeepsNewest` | pipert/contrib/flask_display.py:60-75 | On a capacity-1 queue the grabber leaves exactly one pair: the new frame with its own history and prediction. With both flags off the frame is unchanged. |
| `FlaskDisplay.VisSetup` | pipert/contrib/flask_display.py:127-128 | Setup resets the drop counter to 0 and leaves both queues alone. |
| `FlaskDisplay.Annotate` | pipert/contrib/flask_display.py:99-105 | With no prediction, or an empty one, the frame message is unchanged. Otherwise its payload is the drawn image and its history is the prediction's. |
| `FlaskDisplay.VisTick` | pipert/contrib/flask_display.py:95-125 | An empty input queue means no work and no change. Otherwise the front pair is consumed and the forwarded message becomes the newest output. If the output was full, exactly its oldest item is evicted and counted. If it was not full, nothing is dropped. Kept plus dropped grows by exactly one. |
| `FlaskDisplay.NewDisplay` | pipert/contrib/flask_display.py:136-173 | A new display is stopped and has an empty queue map. Its grabber and visualiser are bound to its stop event, and the server process is registered last. Its two capacity-1 queues start empty, and both flags start off. |
| `FlaskDisplay.DisplayRemoveDropsServer` | pipert/contrib/flask_display.py:140-173 | Removing the visualiser by name from a new display also removes the server process, leaving only the grabber. |
| `FlaskDisplay.FlipIm` | pipert/contrib/flask_display.py:182-183 | `flip_im` inverts the mirror flag and changes nothing else. |
| `FlaskDisplay.Negative` | pipert/contrib/flask_display.py:185-186 | `negative` inverts the negative flag and changes nothing else. |
| `FlaskDisplay.TogglesAreInvolutions` | pipert/contrib/flask_display.py:182-186 | Either toggle applied twice restores the display, and the two toggles commute. |
| `FlaskDisplay.RoundReplacesOutput` | pipert/contrib/flask_display.py:69-121 | On the capacity-1 wiring, a frame passes through the grabber and visualiser in one round. The first queue ends empty, and the output queue holds only that frame. Whatever was in the output before is counted as dropped. |
| `FlaskDisplay.RoundsKeepNewest` | pipert/contrib/flask_display.py:107-121 | With one visualiser tick after each grabber tick, after any non-empty run of frames with no consumer, the output queue holds only the last frame. Every earlier frame is counted as dropped. |
| `FlaskDisplay.FiveFramesScenario` | pipert/contrib/flask_display.py:127-149 | Send five frames into a new, set-up display, with one visualiser tick after each grabber tick and no consumer. A reader then gets the fifth frame and leaves the queue empty, and the counter reads 4. |
| `FlaskDisplay.DoubleGrabLosesUncounted` | pipert/contrib/flask_display.py:69-75 | When the grabber ticks twice before the visualiser ticks, the first frame is evicted from the shared queue and never counted. The next visualiser tick counts only what it evicts from the output. |
| `SortTracking.SortTick` | src/sort.py:48-65 | An empty input queue means no work and no change. Otherwise the front item is consumed. A non-empty output loses exactly its front and the counter rises by 1, full or not; an empty output loses nothing. The tracked result becomes the newest output, or the only one at capacity 1. The blocking put always has room, and the counter never goes down. |
| `SortTracking.DroppedIsMonotone` | src/sort.py:52-57 | Under any interleaving of upstream offers, downstream takes and ticks, the drop counter never decreases. It grows by at most one per tick. |
| `SortTracking.TakeAfterTickIsFreshest` | src/sort.py:52-57 | With a capacity-1 output, a take right after a tick gets that tick's tracked result and leaves the queue empty. |

## Left out

- `pipert/core/message_handlers.py` (the Redis transport) is not modelled. The grabber tick instead takes the results of its two `receive_msg` calls as `Option` arguments. `record_entry` is part of receiving and is uninterpreted.
- The Flask HTTP layer, the MJPEG generator `gen`, the `/shutdown` route and the `__main__` blocks are not modelled. The server process is only an opaque worker.
- `_teardown_callback` is not modelled. Its HTTP request and `terminate` are reduced to the teardown outcome passed to `StopRun`.
- Image and numeric work is uninterpreted: `cv2.flip`, `255 - arr`, the detectron2 visualiser and `InstancesSort.update_instances`. Each is a function parameter.
- `record_exit` and `is_empty` of the envelope are uninterpreted, because their code is not part of this model. `update_payload` is modelled as replacing the payload.
- A received message is taken to be truthy, so `if frame_msg:` holds exactly when a message was received.
- `SORTComponent` is not modelled: it refers to undefined names at src/sort.py:87-88 and cannot run as written.
- Real threads, processes and gevent are not modelled. Starting, the SIGTERM handler and the metrics setup are trace events. Joins are abstract outcomes.
- The time a join takes and the top-level busy wait are not modelled.
- `Components.Run`: a `start()` that raises is not modelled. Every start is assumed to succeed, because `Routine.start` is not part of this model.
- `does_routines_use_queue` is not modelled. It depends on `Routine.does_routine_use_queue`, which is not part of this model.
- `get_all_queue_names` is not modelled. It only returns the keys of the queue map.
- The `Routine` base class is not modelled: its `setup → loop → cleanup` machinery, `as_thread`, and the default state bag. `as_thread` is taken to return the routine itself.
- The model starts the visualiser's counter at 0 at construction, since the state bag belongs to the `Routine` base class; `setup` sets it to 0 in any case. `SORTLogic.setup` does not initialise `dropped`, so the SORT counter is an input of the model.
- Queue object identity is not modelled. `get_queue` returns the queue as a value, and a queue shared by two routines is held once in the display.
- Routine object identity is not modelled. `register_routine` binds the routine object in place, while `RegisterRoutine` returns the bound worker; the bind-once rule holds for callers that go on using that returned value, and registering a second, equal unbound value succeeds in the model.
- The feeder-thread delay of `multiprocessing.Queue` is not modelled. Both display queues are `multiprocessing.Queue` objects, but the model treats every queue as a `queue.Queue`, where a put is visible to the next get at once. With the real queue, a get soon after a put can raise `Empty` although the queue holds an item. `VisLogic` can then hit `Full`, `Empty` and `Full` again and discard the frame without counting it, and the grabber's blocking `put` can wait for `VisLogic`. The model hides that path.
- Ticks run one at a time, over queues whose puts are visible at once. Under those two assumptions `VisLogic`'s `Empty` after `Full` and its second `Full` cannot occur: `VisTick`'s contract shows that a full output always loses exactly one item and gains the new one. Both branches are still written in `VisTick`; they become reachable with a concurrent consumer or with the feeder-thread delay above.
- The collaborators are assumed never to raise. In the source, a raising visualiser, `record_exit` or tracker (`update_instances`) escapes `main_logic`, since only `Empty` is caught; the item already taken from the input queue is then lost, not forwarded and not counted.
- Schedules other than one visualiser tick after each grabber tick are outside `RoundsKeepNewest` and `FiveFramesScenario`. When the grabber runs twice in a row, the first frame is lost without being counted (`DoubleGrabLosesUncounted`), so the counter can be lower than the number of frames never shown.
- The component's `endpoint`, `metrics_collector` and log messages are not modelled.
