# Bluetooth stack: verified models

A Dafny model of the stateful cores of an Android Bluetooth stack, with proofs of what they keep
over whole runs. `dafny verify dfyconfig.toml` checks everything.

| modules | what they model | main results |
|---|---|---|
| `RecencyList`, `LruCache` | the LRU cache of `system/common/lru.h`: linked nodes spliced in place and a key-to-node index | the heap structure refines a recency list; inclusion between capacities over every run of Put and Remove |
| `MetricIds`, `MetricIdAllocator` | the metric id allocator over two such caches | unique ids in every state of every run; the free id search ends (pigeonhole) at the first free id in cyclic order; the storage behind the callbacks equals the paired cache exactly when callbacks succeed |
| `ModuleGraph`, `ModuleRegistry` | recursive module start-up and reverse shutdown over any acyclic dependency graph | starts exactly what is reachable, once, dependencies first; no Start, Stop or delete breaks the protocol at any point of the trace |
| `MessageLoopThread` | the life cycle of a message loop thread as a protocol with any number of callers | an invariant over every interleaving, nothing joined or deleted twice, no deadlock, every call ends |
| `RepeatingTimer` | periodic rescheduling with C++ remainder and 64-bit words | every firing on the grid of the first one, never in the past |
| `GattRequests`, `GattIndications`, `GattServer` | connections under two indexes, outstanding requests, reference-counted indications | the indexes agree, requests are conserved, each indication callback runs at most once and exactly at the last acknowledgement |
| `GattService` | flattening a service and rebuilding it | rebuild and listing are inverse; exactly when the rebuild is defined and when it returns the service added |
| `A2dpMetrics`, `LeakyQueue`, `MetricsLogger` | session metrics, leaky queues, the dump | drift bound of the integer average; each dump holds the latest events with exact counters |
| `AudioParams`, `AudioStream` | parameter strings and frame positions of the audio HAL | print and parse round trip exactly when the map is clean; position bounds |

`Options` and `Words` hold an option type and 64-bit wrap-around.

An imperative class is proved against a specification function or a ghost trace, and the lemmas beside
it say what that specification means. Traces and histories are ghost fields; an observer
(`Observe`) accepts a trace only if every event in it was legal when it happened.

## Where the code does not do what one would expect

The model follows the code. Each point names the member that states it.

- `MessageLoopThread.StartUp` is documented to return with the thread running
  (`system/common/message_loop_thread.h:58-65`). A second concurrent caller returns at once, before
  anything runs (`StartUpCanReturnTooEarly`), and a caller that waited can return after a ShutDown has
  seen its thread out (`StartUpCanReturnTooLate`). `StartUpPromise` and `StartUpWaitPromise` give the
  exact conditions.
- `MessageLoopThread.ShutDown` is documented to return with IsRunning and DoInThread false and the
  thread joined (`system/common/message_loop_thread.h:78-87`). A second concurrent caller returns at once
  with the thread running (`ShutDownCanReturnTooEarly`), and one that comes while the thread is coming up
  returns with it alive (`StartUpCanReturnTooEarly`). `ShutDownPromise` gives the exact conditions.
- An id allocated before `Init` can be the id of a device in the map given to `Init`:
  `IdBeforeInitCanClash`. `InitKeepsInvExactly` gives the exact condition, also for a closed allocator that
  still has paired devices.
- A failing storage callback leaves storage and paired cache different: `MirrorsExactly`.
- A smaller LRU cache is not always a prefix of a larger one once lookups are mixed in:
  `LookupBreaksInclusion`. `ApplyKeepsPrefix` gives the exact condition.
- A disconnection reported under another address leaves the connection in the by-address index:
  `ConnectionCallback` and `DisconnectKeepsAgreementExactly` give the exact condition.
- The service passed to the callback of AddService is always primary and includes nothing:
  `AddedServiceRoundTrip` gives the exact condition under which it is the service that was added.
- The first delay of a repeating timer wraps when the second clock read is past the target:
  `FirstDelayExactly`.
- The comment on `frames_presented_` says that it is never reset; closing and exiting reset it
  (`system/audio_bluetooth_hw/stream_apis.cc:368-392`): `BluetoothStreamOut.SetParameters`.
- A disconnection leaves the pending indication of the connection behind: `ConnectionCallback` and
  `DisconnectKeepsOpenExactly` say exactly when. Until it is acknowledged the callback of the group does
  not run (`WaitingMeansSilent`), and the connection gets no other indication even after it has been made
  again: `StaleIndicationBlocks`.

## Model

| member | source | states |
|---|---|---|
| RecencyList.PutAsMap | system/common/lru.h:128-148 | Put stores exactly the new pair at the head, drops exactly the evicted entry, keeps keys distinct and the size within capacity; it evicts if and only if the cache is full and the key new, and then the least recently touched entry |
| RecencyList.EvictedEntry | system/common/lru.h:128-148 | the entry evicted is the least recently touched one, and there is one only if the cache is full and the key new |
| RecencyList.TouchKeepsMap | system/common/lru.h:79-118 | Find, Get and HasKey change the order only: same pairs, same size, distinct keys |
| RecencyList.WithoutAsMap | system/common/lru.h:156-170 | Remove deletes exactly the one pair |
| RecencyList.WithoutTouched | system/common/lru.h:156-170 | a lookup before a removal changes nothing about its result |
| RecencyList.RunShape | system/common/lru.h:64-180 | after any run of operations keys are distinct and the size is within capacity |
| RecencyList.ApplyKeepsPrefix | system/common/lru.h:79-170 | Put and Remove keep a smaller cache a prefix of a larger one; a lookup keeps it if and only if it does not hit in the larger cache alone |
| RecencyList.Inclusion | system/common/lru.h:128-170 | after any run of Put and Remove the smaller cache is a prefix of the larger |
| RecencyList.PutInclusion | system/common/lru.h:128-148 | after any sequence of Puts the cache of capacity c holds exactly the first c entries, values included, of a cache of any larger capacity |
| RecencyList.LookupBreaksInclusion | system/common/lru.h:79-87 | a run with one lookup after which inclusion fails |
| LruCache.Cache.constructor | system/common/lru.h:47-53 | an empty valid cache of the given positive capacity |
| LruCache.Cache.Detach | system/common/lru.h:156-170 | the pointer updates take exactly the node at the position out and keep the list doubly linked |
| LruCache.Cache.PushFront | system/common/lru.h:128-148 | the node becomes the head of a still doubly linked list |
| LruCache.Cache.Splice | system/common/lru.h:79-87 | the node at any position becomes the head, the others keep their order |
| LruCache.Cache.Find | system/common/lru.h:79-87 | refines the touch of the recency list and returns the node now at the head, or null on a miss |
| LruCache.Cache.Get | system/common/lru.h:97-106 | returns the value the recency list holds and touches the key |
| LruCache.Cache.HasKey | system/common/lru.h:115-118 | answers membership and touches the key |
| LruCache.Cache.Put | system/common/lru.h:128-148 | the linked structure refines Put of the recency list and returns its evicted entry |
| LruCache.Cache.Insert | system/common/lru.h:135-147 | the miss: the last entry goes if and only if the cache is full, the new one comes first |
| LruCache.Cache.Erase | system/common/lru.h:156-170 | takes the node at any position out of the list and its key out of the index, keeping the two consistent |
| LruCache.Cache.Link | system/common/lru.h:140-147 | puts a new node at the head of the list and into the index, keeping the two consistent |
| LruCache.Cache.Remove | system/common/lru.h:156-170 | refines removal from the recency list and says whether the key was there |
| LruCache.Cache.Size | system/common/lru.h:177-180 | the number of entries, read from the index |
| LruCache.Cache.Clear | system/common/lru.h:64-68 | an empty valid cache |
| MetricIds.SomeIdIsFree | system/common/metric_id_allocator.cc:34-45 | pigeonhole: whatever the two caches hold, some id in range is free |
| MetricIds.FirstFreeFound | system/common/metric_id_allocator.cc:128-136 | in every state the invariant allows there is exactly one first free id in cyclic order from the cursor, and the search result is that id |
| MetricIds.AllocateKeepsInv | system/common/metric_id_allocator.cc:117-147 | allocation keeps the invariant and every known id, gives the device its own id or the first free one, touches no paired device, and leaves the cursor one past a new id, wrapped, and where it was for a known device |
| MetricIds.AllocateMakesRecent | system/common/metric_id_allocator.cc:117-147 | the device becomes the most recent of its cache, the others keep their order, and only a full temporary cache loses its last device |
| MetricIds.SaveKeepsInv | system/common/metric_id_allocator.cc:150-177 | saving keeps the invariant and every known id; the device is paired afterwards if and only if it had an id |
| MetricIds.SaveMoves | system/common/metric_id_allocator.cc:158-170 | saving moves the id unchanged and drops exactly the evicted paired device |
| MetricIds.SaveReturnsExactly | system/common/metric_id_allocator.cc:150-177 | saving succeeds if and only if the device is paired already, or has an id and the save callback succeeds; that callback is called exactly for a temporary device, last, with its id |
| MetricIds.SaveMakesRecent | system/common/metric_id_allocator.cc:150-177 | a device with an id is the most recent paired one afterwards; a device without one changes nothing |
| MetricIds.ForgetKeepsInv | system/common/metric_id_allocator.cc:180-195 | forgetting frees exactly the device's id, if it was paired |
| MetricIds.LoadMap | system/common/metric_id_allocator.cc:69-79 | where the map and the devices still paired fit together, loading adds exactly the given map to the paired cache |
| MetricIds.LoadSilent | system/common/metric_id_allocator.cc:69-79 | in that case loading evicts nothing and calls no callback; before the first Init it always is |
| MetricIds.LoadKeepsBooks | system/common/metric_id_allocator.cc:69-79 | where they do not fit, loading devices that are known with that id or new with a free one keeps ids and caches consistent through every eviction |
| MetricIds.LoadForgets | system/common/metric_id_allocator.cc:69-79 | while loading, every device that was paired stays paired with its id or is forgotten with it, and nothing else is forgotten but devices of the map |
| MetricIds.LoadCursor | system/common/metric_id_allocator.cc:69-79 | the cursor ends above every loaded id and at most one past the range |
| MetricIds.InitCursor | system/common/metric_id_allocator.cc:51-82 | the cursor after Init is one past the largest id of the map, wrapped, and the first id for an empty map |
| MetricIds.CloseForgets | system/common/metric_id_allocator.cc:93-103 | closing an initialized allocator takes back every id and keeps the cursor; closing it again changes nothing |
| MetricIds.RunCloseForgets | system/common/metric_id_allocator.cc:93-103 | in every run, after a Close of an initialized allocator no device has an id and what is stored stays stored |
| MetricIds.InitKeepsInvExactly | system/common/metric_id_allocator.cc:51-89 | where everything fits, Init keeps the invariant if and only if the map has no id twice and no device of the temporary cache, no device outside it holds one of its ids, and ids it takes from paired devices are ids it gives out |
| MetricIds.AgreeingInitKeepsInv | system/common/metric_id_allocator.cc:51-89 | a map that agrees with the devices still paired keeps the invariant and every id, whether or not everything fits |
| MetricIds.IdBeforeInitCanClash | system/common/metric_id_allocator.cc:51-89 | an id allocated before Init can clash with one of the map |
| MetricIds.RunKeepsInv | system/common/metric_id_allocator.cc:51-205 | in every state of every run, with operations before Init and after Close, the id set is exactly the ids held, no device is in both caches, no two devices share an id, ids and cursor are in range |
| MetricIds.RunKeepsIds | system/common/metric_id_allocator.cc:51-205 | a device keeps its id as long as it stays known, across everything but a Close and an Init whose map disagrees with a device still paired |
| MetricIds.SameIdExactly | system/common/metric_id_allocator.cc:117-147 | in every run, two allocations of new ids with no map loaded between them give the same id if and only if the cursor has gone round a whole number of times in between, so never before it has gone round once |
| MetricIds.MirrorsExactly | system/common/metric_id_allocator.cc:150-205 | saving and forgetting keep storage equal to the paired cache if and only if every callback made succeeds |
| MetricIds.RunMirrors | system/common/metric_id_allocator.cc:69-205 | replaying the callbacks of any run, evictions included, gives the paired cache while the allocator is initialized and at least the paired devices while it is closed, if callbacks succeed and Init is given what is stored |
| MetricIdAllocator.MetricIdAllocator.constructor | system/common/metric_id_allocator.cc:47-49 | two empty caches of the two capacities, newly made, and the cursor at the first id |
| MetricIdAllocator.MetricIdAllocator.Init | system/common/metric_id_allocator.cc:51-89 | refuses a second time, aborts exactly on an oversized map or an id out of range, else takes the Init step and calls the forget callback exactly for the devices evicted on the way |
| MetricIdAllocator.MetricIdAllocator.LoadDevices | system/common/metric_id_allocator.cc:69-79 | the loop stops at the first id out of range, else takes the Load steps in order with their calls; without callbacks it never evicts |
| MetricIdAllocator.MetricIdAllocator.Close | system/common/metric_id_allocator.cc:93-103 | empties both caches and the id set of an initialized allocator, keeping the cursor and the cache objects, and says whether it was initialized |
| MetricIdAllocator.MetricIdAllocator.IsEmpty | system/common/metric_id_allocator.cc:110-114 | true if and only if no device holds an id |
| MetricIdAllocator.MetricIdAllocator.FindFreeId | system/common/metric_id_allocator.cc:128-134 | the cursor loop terminates at the first free id in cyclic order |
| MetricIdAllocator.MetricIdAllocator.AllocateId | system/common/metric_id_allocator.cc:117-147 | takes the Allocate step and returns the id it assigns or finds; only the temporary cache may grow |
| MetricIdAllocator.MetricIdAllocator.SaveDevice | system/common/metric_id_allocator.cc:150-177 | takes the Save step, with the forget callback of an evicted device before the save callback; succeeds if and only if the device was paired, or temporary with a successful save callback; only the paired cache may grow |
| MetricIdAllocator.MetricIdAllocator.ForgetDevice | system/common/metric_id_allocator.cc:180-195 | takes the Forget step and calls the forget callback exactly for a paired device; neither cache grows |
| MetricIdAllocator.MetricIdAllocator.ForgetDevicePostprocess | system/common/metric_id_allocator.cc:201-205 | frees the id and calls the forget callback once |
| MetricIdAllocator.MetricIdAllocator.Perform | system/common/metric_id_allocator.cc:51-205 | any operation that is allowed takes its step and makes its calls |
| MetricIdAllocator.PerformAll | system/common/metric_id_allocator.cc:51-205 | the object goes through every run of the model: it ends in the state of the run, and replaying its calls onto the initial storage gives the storage of the run |
| ModuleGraph.VisitSound | system/gd/module.cc:79-101 | starting one module appends new, reachable modules of no higher rank, keeping the order duplicate-free and dependency-ordered |
| ModuleGraph.VisitAllSound | system/gd/module.cc:68-72 | the same for a list, all of which ends up started |
| ModuleGraph.VisitsInListOrder | system/gd/module.cc:68-72 | the list is worked off from the front: what its first part needs is started before anything the rest adds |
| ModuleGraph.VisitEndsWith | system/gd/module.cc:79-101 | a module that was not started comes last, directly after what its dependencies add; one that was changes nothing |
| ModuleGraph.StartsExactlyReachable | system/gd/module.cc:68-101 | afterwards started are exactly the modules started before and those reachable from the list, each once, each after its dependencies |
| ModuleGraph.AcceptedAtEveryPoint | system/gd/module.cc:79-127 | an accepted trace has a legal event at every point |
| ModuleGraph.TraceAccounted | system/gd/module.cc:79-127 | in every accepted trace each instance ever made is pending, registered under one factory or freed, and only one of these |
| ModuleGraph.LiveMeansRegistered | system/gd/module.cc:79-127 | in every accepted trace the instance registered for a module is exactly the one that was started for it and not freed since |
| ModuleGraph.StopIsLegal | system/gd/module.cc:105-116 | in reverse order each module stops while all it depends on runs and nothing running depends on it |
| ModuleGraph.FreeIsLegal | system/gd/module.cc:117-123 | in reverse order each module is freed while all it depends on is registered and nothing registered depends on it |
| ModuleRegistry.ModuleRegistry.StartModule | system/gd/module.cc:79-101 | terminates, extends the start order exactly by the visit, keeps registered instances, and every event of the trace is legal |
| ModuleRegistry.ModuleRegistry.StartList | system/gd/module.cc:68-72 | the same for a list |
| ModuleRegistry.ModuleRegistry.Register | system/gd/module.cc:93-98 | Start runs once, with every dependency registered, before the module is listed |
| ModuleRegistry.ModuleRegistry.StopAll | system/gd/module.cc:103-127 | stops, then frees, every module in exact reverse start order without an illegal event; ends empty with every instance ever made freed |
| ModuleRegistry.ModuleRegistry.StopModules | system/gd/module.cc:105-116 | the stop loop: one Stop per module in reverse start order |
| ModuleRegistry.ModuleRegistry.FreeModules | system/gd/module.cc:117-123 | the delete loop: one delete per module in reverse start order |
| ModuleRegistry.StopsInReverse | system/gd/module.cc:103-123 | the stops and the deletes are one per module in exact reverse start order |
| ModuleRegistry.ModuleRegistry.GetFindsLive | system/gd/module.cc:58-66 | the registry answers with the instance started for the module and not freed since, and fails if and only if there is none |
| ModuleRegistry.ModuleRegistry.DependencyFound | system/gd/module.cc:48-56 | a started module that asks for something it listed gets the live instance of that module, and is refused exactly what it did not list |
| MessageLoopThread.StepKeepsInv | system/common/message_loop_thread.cc:53-250 | every step of every caller and thread keeps the protocol invariant |
| MessageLoopThread.RunIsSafe | system/common/message_loop_thread.cc:53-250 | in every state of every interleaving at most one thread is unfinished, loop, run loop and thread id are set together and belong to the current thread, posting works exactly while running, and shutting down means exactly one caller between quit and delete; nothing faults |
| MessageLoopThread.NothingTwice | system/common/message_loop_thread.cc:117-158 | no run joins or deletes a thread twice |
| MessageLoopThread.SomeStepIsEnabled | system/common/message_loop_thread.cc:53-250 | while a call is in progress some internal step can be taken |
| MessageLoopThread.InternalStepsAreWork | system/common/message_loop_thread.cc:53-250 | every internal step uses up work, which never goes below zero |
| MessageLoopThread.EveryCallFinishes | system/common/message_loop_thread.cc:53-250 | with no new calls every interleaving is bounded, and one that can go no further has let every caller return |
| MessageLoopThread.StartUpPromise | system/common/message_loop_thread.cc:53-77 | a StartUp that returns at once leaves the thread not running if and only if another StartUp still waits for it to come up or a ShutDown has seen it out; with no other call in progress it is running |
| MessageLoopThread.StartUpWaitPromise | system/common/message_loop_thread.cc:53-77 | in every run, a StartUp that waited returns with its own thread running if and only if that thread has not left its loop between the lock and the return |
| MessageLoopThread.ShutDownPromise | system/common/message_loop_thread.cc:117-158 | a ShutDown that returns at once leaves the thread running, and tasks accepted, if and only if another ShutDown is in progress and the loop is still up, and leaves a thread if and only if one is coming up or being shut down; one that completes leaves the thread joined, deleted and cleared |
| MessageLoopThread.StartUpCanReturnTooEarly | system/common/message_loop_thread.cc:53-77 | a run in which a second StartUp returns with nothing running and a ShutDown returns with the thread still coming up |
| MessageLoopThread.StartUpCanReturnTooLate | system/common/message_loop_thread.cc:53-77 | a run in which a StartUp that waited returns with nothing running |
| MessageLoopThread.ShutDownCanReturnTooEarly | system/common/message_loop_thread.cc:117-158 | a run in which a second ShutDown returns with the thread running and accepting tasks |
| RepeatingTimer.DelayReachesNextGridPoint | system/common/repeating_timer.cc:149-163 | whatever the lateness, the posted firing is the first grid point neither in the past nor before the due time |
| RepeatingTimer.ZeroDelayExactly | system/common/repeating_timer.cc:149-163 | the delay is zero if and only if the run is late by whole periods |
| RepeatingTimer.FirstDelayExactly | system/common/repeating_timer.cc:53-68 | the first delay is within the period if and only if the second clock read is not past the target |
| RepeatingTimer.FiresOnGrid | system/common/repeating_timer.cc:139-164 | every firing of every run lies on the grid, not in the past and not before it is due |
| RepeatingTimer.NeverAheadOfSchedule | system/common/repeating_timer.cc:139-164 | if tasks never fire early, run k is never before its schedule and every posted delay is between zero and a period |
| RepeatingTimer.Timer.SchedulePeriodic | system/common/repeating_timer.cc:44-85 | posts exactly for a positive period, a thread and an accepted post; a failed post leaves the timer unscheduled |
| RepeatingTimer.Timer.CancelClosure | system/common/repeating_timer.cc:119-130 | leaves the timer unscheduled |
| RepeatingTimer.Timer.RunTask | system/common/repeating_timer.cc:139-176 | the due time moves on by one period modulo 2^64, so that after k runs it is start + (k + 1) periods, and the delay is the one to the next grid point |
| RepeatingTimer.FireTimes | system/common/repeating_timer.cc:44-164 | a timer scheduled and run any number of times asks to fire first one period after its start, and then each time at the first grid point neither in the past nor before the next period due |
| A2dpMetrics.MergeError | system/common/metrics.cc:83-92 | one rounded merge adds an error below one to the mean and never goes above it |
| A2dpMetrics.AverageDrift | system/common/metrics.cc:111-121 | over any sequence of updates the stored count is the exact sum, and the stored average never exceeds the exact mean and is below it by less than the number of two-sided merges |
| A2dpMetrics.UnderrunMeanIsExact | system/common/metrics.cc:72-81 | rounding aside, the stored underrun average is the exact weighted mean |
| A2dpMetrics.AccumulateIsExact | system/common/metrics.cc:94-149 | totals are exact sums and extremes are attained bounds over any sequence of updates, missing values ignored |
| A2dpMetrics.CodecIsFirstNamed | system/common/metrics.cc:94-149 | the codec is that of the first update that names one |
| A2dpMetrics.A2dpSessionMetrics.Update | system/common/metrics.cc:94-149 | the in-place update of all eleven fields is one merge |
| LeakyQueue.HoldsTheLatest | system/common/leaky_bonded_queue.h:102-110 | after any number of enqueues the queue holds the most recent items in order |
| LeakyQueue.LatestIsSuffix | system/common/leaky_bonded_queue.h:102-110 | what is kept is the end of what was enqueued, as long as the capacity allows |
| LeakyQueue.LeakyBondedQueue.Enqueue | system/common/leaky_bonded_queue.h:102-110 | keeps the latest items, dropping the oldest exactly when full |
| LeakyQueue.LeakyBondedQueue.EnqueueWithPop | system/common/leaky_bonded_queue.h:112-124 | the returned item and the queue together are the old queue and the new item |
| LeakyQueue.LeakyBondedQueue.Dequeue | system/common/leaky_bonded_queue.h:126-132 | takes the oldest item off |
| LeakyQueue.LeakyBondedQueue.Clear | system/common/leaky_bonded_queue.h:134-141 | empties the queue |
| MetricsLogger.Drain | system/common/metrics.cc:509-541 | a drain loop empties its queue into the list in order: its size test never stops it |
| MetricsLogger.DrainWhile | system/common/metrics.cc:537-542 | the fifth loop, which goes by another queue than it takes from, moves items in order and does nothing if the other queue is empty |
| MetricsLogger.ClosedMeaning | system/common/metrics.cc:376-398 | a closed session keeps what it had, takes the reason, and lasts the whole seconds from start to end |
| MetricsLogger.BluetoothMetricsLogger.LogPairEvent | system/common/metrics.cc:303-319 | the event is counted and is the latest of its queue |
| MetricsLogger.BluetoothMetricsLogger.LogWakeEvent | system/common/metrics.cc:321-336 | the same for wake events |
| MetricsLogger.BluetoothMetricsLogger.LogScanEvent | system/common/metrics.cc:338-358 | the same for scan events |
| MetricsLogger.BluetoothMetricsLogger.LogBluetoothSessionStart | system/common/metrics.cc:360-374 | ends an open session with its own reason at the first clock read, then opens a new one without metrics at the second |
| MetricsLogger.BluetoothMetricsLogger.LogBluetoothSessionEnd | system/common/metrics.cc:376-398 | enqueues and counts the open session with its reason and the whole seconds since its start, up to the time given or the clock; nothing if none is open |
| MetricsLogger.BluetoothMetricsLogger.LogBluetoothSessionDeviceInfo | system/common/metrics.cc:400-409 | sets the device of the open session, opening one of unknown technology if needed |
| MetricsLogger.BluetoothMetricsLogger.LogA2dpSession | system/common/metrics.cc:411-445 | the open session carries the merge of exactly the updates it received |
| MetricsLogger.BluetoothMetricsLogger.CutoffSession | system/common/metrics.cc:494-507 | ends the open session and continues it without its metrics |
| MetricsLogger.BluetoothMetricsLogger.Build | system/common/metrics.cc:509-542 | the built log holds the latest events of each kind and exact counters; every queue is empty, and the fifth loop has moved nothing |
| MetricsLogger.BluetoothMetricsLogger.WriteString | system/common/metrics.cc:465-475 | the dump covers everything logged since the last one and leaves nothing but the continued session |
| MetricsLogger.BluetoothMetricsLogger.Reset | system/common/metrics.cc:558-580 | a logger with nothing logged and no session |
| MetricsLogger.LogAndDump | system/common/metrics.cc:303-542 | for any sequence of pair, scan and wake events on a new logger, the dump counts all of each kind and holds its latest ones in order |
| AudioStream.PositionBounds | system/audio_bluetooth_hw/stream_apis.cc:108-127 | with P frames presented and latency L the position is between max(0, P - 2L) and max(0, P - L), and it is the reported count less L exactly when that count is within L of P |
| AudioStream.OutDelayMeaning | system/audio_bluetooth_hw/stream_apis.cc:72-100 | a reported delay counts if it is at least 51 and less than 1000 milliseconds; any other report is replaced by the time the buffer lasts and 200 milliseconds |
| AudioStream.LatencyMeaning | system/audio_bluetooth_hw/stream_apis.cc:109-109 | the latency is the number of whole frames the delay lasts |
| AudioStream.OutPositionBounds | system/audio_bluetooth_hw/stream_apis.cc:52-131 | the same for the output stream with its delay fallback, inside a 64-bit word, and the exact position from the count of the stack |
| AudioStream.InPositionBounds | system/audio_bluetooth_hw/stream_apis.cc:133-178 | the same for the input stream with the delay as reported |
| AudioStream.BluetoothStreamOut.Write | system/audio_bluetooth_hw/stream_apis.cc:504-563 | both counters advance by the frames of the buffer if the port took any byte, modulo 2^64 |
| AudioStream.BluetoothStreamOut.Standby | system/audio_bluetooth_hw/stream_apis.cc:268-295 | only a started stream loses its rendered count, never its presented count |
| AudioStream.BluetoothStreamOut.SetParameters | system/audio_bluetooth_hw/stream_apis.cc:303-397 | closing and exiting reset both counters, a suspension only the rendered one |
| AudioStream.BluetoothStreamOut.RenderedIsBounded | system/audio_bluetooth_hw/stream_apis.cc:268-392 | in every state reached with fewer than 2^64 frames, rendered never exceeds presented |
| AudioStream.OneWriteKeepsOrderExactly | system/audio_bluetooth_hw/stream_apis.cc:533-537 | at the word limit one write keeps the order of the counters exactly when it does not wrap the presented one alone |
| AudioParams.SplitIsExact | system/audio_bluetooth_hw/utils.cc:33-49 | splitting loses nothing: joining the pieces gives the string back, and no piece holds the delimiter |
| AudioParams.SplitOfJoin | system/audio_bluetooth_hw/utils.cc:33-49 | splitting undoes joining for pieces that do not hold the delimiter |
| AudioParams.SegmentText | system/audio_bluetooth_hw/utils.cc:36-46 | a segment is its text before the first '=' and between the first and second; it is dropped if and only if it is empty or begins with '=' |
| AudioParams.ParseAudioParams | system/audio_bluetooth_hw/utils.cc:33-49 | the loop computes the fold over the segments |
| AudioParams.ParseMeaning | system/audio_bluetooth_hw/utils.cc:33-49 | for a string made of any pieces with a semicolon between them, a key is in the result if and only if a piece gives it, with the value of the last piece that does |
| AudioParams.NotMentioned | system/audio_bluetooth_hw/utils.cc:33-49 | a key no segment gives is unaffected |
| AudioParams.LastWins | system/audio_bluetooth_hw/utils.cc:33-49 | a key some segment gives has the value of the last one that does |
| AudioParams.ParseIsClean | system/audio_bluetooth_hw/utils.cc:33-49 | whatever is parsed, keys are not empty and nothing holds a delimiter |
| AudioParams.PrintParams | system/audio_bluetooth_hw/stream_apis.cc:477-480 | the loop prints the pairs in the order visited |
| AudioParams.PrintText | system/audio_bluetooth_hw/stream_apis.cc:477-480 | the text is one key=value piece per key in the order visited, each with a semicolon after it |
| AudioParams.RoundTripExactly | system/audio_bluetooth_hw/stream_apis.cc:477-480 | printing in any order and parsing gives the map back if and only if its keys are not empty and nothing in it holds a delimiter |
| GattRequests.Conservation | system/service/gatt_server.cc:106-179 | recorded requests are the answered, the outstanding and those dropped with their connection |
| GattRequests.OutstandingWasRecorded | system/service/gatt_server.cc:338-514 | an outstanding request was recorded with its handle and nothing has ended it since |
| GattRequests.AnsweredOnce | system/service/gatt_server.cc:106-179 | each answer is to a request recorded before with that handle, neither answered nor dropped in between |
| GattIndications.AckKeepsSound | system/service/gatt_server.cc:516-538 | an acknowledgement keeps the group sound and runs the callback if and only if it is the last one waited for |
| GattIndications.CallbackPromise | system/service/gatt_server.cc:516-538 | the callback runs at most once, exactly when every connection has acknowledged, with success if and only if some acknowledgement succeeded, else with the last status |
| GattIndications.WaitingMeansSilent | system/service/gatt_server.cc:516-538 | while a connection has not acknowledged, the callback has not run and no acknowledgement of another connection runs it |
| GattServer.ConnectKeepsAgreement | system/service/gatt_server.cc:288-290 | a new connection keeps the two indexes in agreement |
| GattServer.DisconnectKeepsAgreementExactly | system/service/gatt_server.cc:258-275 | a disconnection keeps them in agreement if and only if the connection is unknown or its address is the one reported |
| GattServer.DisconnectKeepsOpenExactly | system/service/gatt_server.cc:258-275 | closing a connection leaves an indication pending on a closed connection if and only if that connection had one |
| GattServer.AckKeepsBooks | system/service/gatt_server.cc:516-538 | every connection waits on at most one group, every group knows who waits, and all groups stay sound |
| GattServer.UniqueMeansLast | system/service/gatt_server.cc:527-537 | the shared pointer is unique if and only if no other connection waits on the group |
| GattServer.TargetsAreNew | system/service/gatt_server.cc:203-235 | a notification goes to exactly the connections of the address with nothing pending that the HAL accepts |
| GattServer.GattServer.ConnectionCallback | system/service/gatt_server.cc:246-294 | both indexes gain or lose exactly the connection, its requests are dropped with it; the indexes agree afterwards if and only if the address of a closed connection is the one it was made with, and no indication is stale afterwards if and only if the closed connection had none pending |
| GattServer.GattServer.GetConnection | system/service/gatt_server.cc:544-567 | the connection, if its address matches and the request id is new to it |
| GattServer.GattServer.RequestCallback | system/service/gatt_server.cc:338-514 | a delivered request is recorded if it is a read, a write that wants a response or an execute write, with its handle or -1 for an execute write, and nothing else changes |
| GattServer.GattServer.SendResponse | system/service/gatt_server.cc:106-179 | sends if and only if the input is valid and some connection of the address has the request, on the last such connection, with the request id and error given, the recorded handle, and the offset and value given, or none for an execute write; on success exactly that request is answered, else nothing changes |
| GattServer.FindRequest | system/service/gatt_server.cc:138-145 | the last connection of the list that has the request, or none |
| GattServer.EraseFirst | system/service/gatt_server.cc:266-272 | the loop removes the first connection with the id |
| GattServer.GattServer.SendNotification | system/service/gatt_server.cc:181-244 | succeeds if and only if it was sent somewhere; the group is pending on exactly those connections, no connection with a pending indication is touched, and no indication goes stale |
| GattServer.GattServer.IndicationSentCallback | system/service/gatt_server.cc:516-538 | takes the acknowledgement step of its group, runs the callback when that step does, and leaves no indication stale that was not |
| GattServer.StaleIndicationBlocks | system/service/gatt_server.cc:181-294 | connect, send, disconnect and connect again under the same id: the next notification is sent on nothing |
| GattService.Flatten | system/service/gatt_server.cc:69-90 | the loops list the tree in order without handles, then the included services |
| GattService.FlattenedMeaning | system/service/gatt_server.cc:69-90 | the list begins with the service, primary or secondary, goes on with its characteristics and descriptors without handles, and ends with the handles of the included services |
| GattService.AppendCharacteristic | system/service/gatt_server.cc:78-86 | the inner loop lists the characteristic and then its descriptors in order, without handles |
| GattService.Rebuild | system/service/gatt_server.cc:308-325 | the loop computes the fold over the elements, or stops where the code would leave its vectors |
| GattService.RebuildDefinedExactly | system/service/gatt_server.cc:308-325 | the rebuild stays inside its vectors if and only if the list is not empty and every descriptor has a characteristic before it |
| GattService.ListingOfRebuild | system/service/gatt_server.cc:310-325 | listing what was rebuilt gives back the elements in order: none lost, moved or reordered |
| GattService.RebuildOfListing | system/service/gatt_server.cc:310-325 | rebuilding the list of any tree gives that tree |
| GattService.RebuildIgnoresHandles | system/service/gatt_server.cc:310-325 | the shape rebuilt does not depend on the handles |
| GattService.AddedServiceRoundTrip | system/service/gatt_server.cc:69-325 | whatever handles are filled in, the characteristics and descriptors come back as added with those handles in order; the whole service does, up to handles, if and only if it was primary and included nothing |

## Left out

- MetricIdAllocator.MetricIdAllocator.SaveDevice: asks that the callbacks have been set before a temporary device is saved; the code would call an empty callback.
- MetricIds.AgreeingInitKeepsInv: one direction only for a closed allocator whose paired devices and the map do not fit in the cache together; what such an Init evicts depends on the order of a hash map, so a caller cannot know more before the call.
- MetricIdAllocator.MetricIdAllocator.AllocateId: asks for the invariant, without which the search loop need not end; RunKeepsInv provides it.
- ModuleRegistry.ModuleRegistry.StartModule: cyclic dependency graphs, on which the code recurses without end.
- MessageLoopThread.StepKeepsInv: the Rust-backed loop, real-time scheduling and the log texts; each locked region is one step and thread ids are fresh.
- RepeatingTimer.Timer.CancelClosure: waiting for a running task, which only blocks; times are kept below 2^63 in the lemmas about delays.
- A2dpMetrics.AverageDrift: overflow of the 64-bit products and counters.
- A2dpMetrics.UnderrunMeanIsExact: float rounding; the average is a real number.
- A2dpMetrics.A2dpSessionMetrics.Update: overflow of the 32-bit counters.
- LeakyQueue.LeakyBondedQueue.Dequeue: an empty queue, on which the code is undefined; likewise a queue of capacity zero.
- MetricsLogger.BluetoothMetricsLogger.WriteString: protobuf serialization, base64, the headset profile counters and the locks; the logger runs sequentially.
- AudioStream.BluetoothStreamOut.Write: the state machine of the audio port, sleeping after a failed write, and volume; the port's answers are parameters.
- GattServer.GattServer.SendResponse: parsing the address text, which is a boolean parameter; the delegate and the HAL are parameters too.
- GattServer.GattServer.SendNotification: the handle, value and confirmation flag passed on to the HAL unchanged.
- GattServer.GattServer.RequestCallback: the values handed to the delegate; the five callbacks differ in nothing else.
- GattService.AddedServiceRoundTrip: that the HAL returns the list it was given apart from handles is an assumption about it; registering the callback and its clean-up are left out.
- Audio HAL session control over HIDL and AIDL, message queues, and `system/audio_hal_interface`: dispatch onto code outside the repository.
- The start and suspend handshake of the audio port: a small finite machine whose claims can be read off its branches.
- OnceTimer, IdGenerator, StateMachine, StopWatchLegacy: they would only add easy members.
- Logging, statsd, flatbuffer dumps, clocks, HMAC, configuration getters, AVRCP and A2DP service wrappers: I/O and wrappers.
