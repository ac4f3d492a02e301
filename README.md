# MyThreadPool in Dafny

A model of the C# thread pool `MyThreadPool`. `WorkerThreadPool` is a pool with a bounded capacity that can be changed at run time.
- It keeps a FIFO queue of work items and a roster of worker threads: registered, idle (a FIFO) and busy.
- When there is work, it either reuses an idle worker or spawns a new one while below capacity.
- Whenever it is over capacity, it shrinks by disposing idle workers.
- It can evict every worker once the pool has been idle for a keep-alive interval. A log of these evictions is kept.

Each `WorkerThread` is a dedicated thread parked on an auto-reset event. It has a slot for the action to run, a busy flag and a disposed flag.

The pool is modelled as a sequential state machine. Every body the source runs under the pool's lock is one atomic step.
- Module `PoolSpec` gives the pool's fields as a value (`PoolState`) and one function per locked step (`Match`, `Adjusted`, `Drain`, `Resized`, `Submitted`, `WorkCompleted`, `Released`, `TickStep`, `Disposed`). It also defines the invariant `Inv`:
  - no worker is registered twice;
  - idle and busy workers are disjoint registered workers;
  - at most one registered worker is neither idle nor busy (the one borrowed for the idle countdown);
  - a disposed pool is empty;
  - after a shrink the pool is within capacity or has no idle worker;
  - no item waits while a worker is idle or one could be spawned;
  - while the idle countdown runs (the spin flag is set), nothing is queued and no worker is busy.
- Module `PoolProperties` proves what each step guarantees: the invariant, the matching rule's cases, FIFO dispatch, capacity accounting, the eviction log and disposal.
- Module `Pool` holds the class `WorkerThreadPool`. Its methods change the fields exactly as the matching step function says, and they keep `Valid()`, which is `Inv` of the fields.
- Modules `Workers` and `WorkItems` model `WorkerThread` and the single-use `WorkItem` as classes with their flags.

Workers are known to the pool by their managed thread ids, which are integers. A spawned worker receives the pool's counter `nextThreadId`, which stands for the runtime's unique ids.

The boolean `workerThreadCall`, `Thread.CurrentThread` and `DateTime.Now` become the parameter `Caller`:
- `External` for `QueueWorkItem` and `SetPoolSize`;
- `PoolThread(id, now)` for the completion handler.

Times are whole milliseconds in `[0, MaxTime]`, where `MaxTime` is `DateTime.MaxValue`. `now.AddMilliseconds(t)` becomes `ReleaseDeadline`, which clamps to `MaxTime` where the source catches the overflow.

Each operation that hands out a worker and an item returns them as an `Activation`, to be activated once the lock is free. `ActivateWorkerThread` is a separate method on a `WorkerThread` object.

`SetPoolSize` does not check whether the pool is disposed. After `Dispose`, a resize therefore raises the capacity again, and `GetAvailableThreads` reports it (`ResizeAfterDispose`). This is modelled as written.

## Model

| member | source | states |
|---|---|---|
| Pool.WorkerThreadPool.constructor | MyThreadPool/WorkerThreadPool.cs:39-49 | a pool of the given size (at least 1) starts empty, with eviction disabled (-1), and satisfies the invariant |
| Pool.WorkerThreadPool.Default | MyThreadPool/WorkerThreadPool.cs:30-34 | the parameterless pool has 25 threads and satisfies the invariant |
| Pool.WorkerThreadPool.Create | MyThreadPool/WorkerThreadPool.cs:39-42 | a size below 1 is rejected with an argument fault; otherwise a fresh valid pool of that size |
| Pool.WorkerThreadPool.GetPoolSize | MyThreadPool/WorkerThreadPool.cs:89-92 | gives the configured capacity |
| Pool.WorkerThreadPool.GetKeepAliveTime | MyThreadPool/WorkerThreadPool.cs:77-82 | gives the keep-alive interval |
| Pool.WorkerThreadPool.SetKeepAliveTime | MyThreadPool/WorkerThreadPool.cs:83-86 | sets only the keep-alive interval and keeps the invariant |
| Pool.WorkerThreadPool.GetAvailableThreads | MyThreadPool/WorkerThreadPool.cs:118-128 | capacity minus busy workers, floored at 0 (the borrowed countdown worker is not counted) |
| Pool.WorkerThreadPool.GetWorkCount | MyThreadPool/WorkerThreadPool.cs:134-140 | queued items plus busy workers |
| Pool.WorkerThreadPool.GetReleaseThreadsRecords | MyThreadPool/WorkerThreadPool.cs:176-187 | a copy of the eviction log, record for record, in order |
| Pool.WorkerThreadPool.SetPoolSize | MyThreadPool/WorkerThreadPool.cs:93-112 | a size below 1 faults without a change; otherwise sets the size, shrinks, then dispatches until matching fails, as in Resized; keeps the invariant |
| Pool.WorkerThreadPool.DispatchAll | MyThreadPool/WorkerThreadPool.cs:103-110 | the dispatch loop ends in the state and with the activations of Drain |
| Pool.WorkerThreadPool.QueueWorkItem | MyThreadPool/WorkerThreadPool.cs:148-174 | a null callback gives false; a disposed pool faults; a full queue gives false, all three without a change; otherwise a fresh unexecuted item with the callback and state is queued and matching runs, as in Submitted |
| Pool.WorkerThreadPool.TryGetWorkerThreadAndWorkItem | MyThreadPool/WorkerThreadPool.cs:196-270 | the state and the pair are those of Match; a borrowed worker receives a fresh countdown item whose state is that worker |
| Pool.WorkerThreadPool.ActivateWorkerThread | MyThreadPool/WorkerThreadPool.cs:272-277 | succeeds exactly when the worker is neither disposed nor busy; the worker then holds the item's action, has the completion handler subscribed and is signalled, and its disposed, busy and exited flags are unchanged; a failure changes nothing |
| Pool.WorkerThreadPool.WorkComplete | MyThreadPool/WorkerThreadPool.cs:278-304 | a disposed pool ignores the call; otherwise the worker leaves the busy list, if it was on it, and joins the idle queue, the pool shrinks and re-matches as a pool thread, as in WorkCompleted; keeps the invariant |
| Pool.WorkerThreadPool.AdjustPool | MyThreadPool/WorkerThreadPool.cs:309-317 | the new roster and the workers disposed are those of Adjusted |
| Pool.WorkerThreadPool.TickStep | MyThreadPool/WorkerThreadPool.cs:323-349 | one locked step of the countdown, as in PoolSpec.TickStep; keeps the invariant; an eviction gives the ids of every registered worker, otherwise none |
| Pool.WorkerThreadPool.ReleaseThreads | MyThreadPool/WorkerThreadPool.cs:351-376 | logs one record of every registered worker in order, gives those ids and empties the roster and the queue |
| Pool.WorkerThreadPool.Dispose | MyThreadPool/WorkerThreadPool.cs:387-400 | as in Disposed: the first call releases every worker, giving their ids, and sets the capacity to 0 and the disposed flag; a second does nothing and gives no ids |
| PoolSpec.Match | MyThreadPool/WorkerThreadPool.cs:196-270 | no pair leaves the state unchanged; a dispatch takes the head of the queue; otherwise the queue is unchanged; only a pool thread can borrow a worker |
| PoolSpec.RemoveFirst | MyThreadPool/WorkerThreadPool.cs:293 | List.Remove: one element shorter exactly when x was present, unchanged otherwise, no element gained or lost but x, and keeps distinctness |
| PoolSpec.FirstIndex | MyThreadPool/WorkerThreadPool.cs:314 | the position of the first occurrence: it holds x and no earlier position does |
| PoolSpec.RemoveFirstSplices | MyThreadPool/WorkerThreadPool.cs:314 | List.Remove drops exactly the first occurrence and keeps the rest in order, so registration order survives a shrink |
| PoolSpec.ReleaseDeadline | MyThreadPool/WorkerThreadPool.cs:255-262 | now plus the interval, or DateTime.MaxValue when that overflows |
| PoolSpec.Initial | MyThreadPool/WorkerThreadPool.cs:39-49 | a new pool has no work, an empty log, is not disposed and not counting down, and has all its capacity available |
| PoolSpec.WorkCount | MyThreadPool/WorkerThreadPool.cs:138 | never negative, and zero exactly when nothing is queued or busy |
| PoolSpec.Drain | MyThreadPool/WorkerThreadPool.cs:103-110 | the dispatch loop starts at most the queued items and leaves capacity, keep-alive, disposal, countdown and log unchanged |
| PoolSpec.Resized | MyThreadPool/WorkerThreadPool.cs:93-112 | succeeds exactly for sizes of at least 1, which it then sets; disposal and the log are unchanged |
| PoolSpec.Submitted | MyThreadPool/WorkerThreadPool.cs:156-170 | faults exactly on a disposed pool, accepts exactly when the pool is live and the queue not full, and never borrows a worker |
| PoolSpec.Returned | MyThreadPool/WorkerThreadPool.cs:293-294 | the worker is last in the idle queue, no longer busy, and the busy count falls by one if it was busy |
| PoolSpec.WorkCompleted | MyThreadPool/WorkerThreadPool.cs:278-304 | capacity, disposal and the log are unchanged, and a dispatched item is the head of the queue |
| PoolSpec.Released | MyThreadPool/WorkerThreadPool.cs:351-376 | no work is left, one record is added, capacity and disposal are unchanged |
| PoolSpec.TickStep | MyThreadPool/WorkerThreadPool.cs:328-346 | stops exactly when the spin flag is clear, evicts exactly when it is set and the deadline has come, and otherwise changes nothing |
| PoolSpec.Disposed | MyThreadPool/WorkerThreadPool.cs:387-400 | the pool ends disposed; a disposed pool is left as it is; otherwise the capacity is 0 and no work is left |
| PoolSpec.AvailableThreads | MyThreadPool/WorkerThreadPool.cs:122-126 | never negative, and either 0 or capacity minus busy workers |
| PoolSpec.Shrink | MyThreadPool/WorkerThreadPool.cs:311-316 | the disposed workers are a prefix of the idle queue and the rest stays idle; afterwards the pool is within capacity or no worker is idle |
| PoolSpec.Adjusted | MyThreadPool/WorkerThreadPool.cs:309-317 | changes only the registered and idle lists, disposes a prefix of the idle queue and leaves the pool within capacity or without idle workers |
| PoolProperties.MatchKeepsWf | MyThreadPool/WorkerThreadPool.cs:201-268 | matching keeps the roster consistent |
| PoolProperties.MatchWithWork | MyThreadPool/WorkerThreadPool.cs:201-223 | with work queued: an idle worker takes the head item, else a new unregistered worker is spawned below capacity, else nothing happens (exactly when none is idle and the pool is full) |
| PoolProperties.MatchWithoutWork | MyThreadPool/WorkerThreadPool.cs:225-268 | with nothing queued there is never a dispatch; an external caller gets nothing; a worker is borrowed exactly when eviction is enabled, the pool is wholly idle and the caller is one of its workers, which arms the countdown |
| PoolProperties.BorrowIsInvisible | MyThreadPool/WorkerThreadPool.cs:248-254 | the borrowed worker stays registered but is neither idle nor busy, and the available and work counts do not change |
| PoolProperties.MatchBusy | MyThreadPool/WorkerThreadPool.cs:207-218 | matching changes the busy list only by appending a dispatched worker |
| PoolProperties.MatchSettles | MyThreadPool/WorkerThreadPool.cs:196-270 | one match from a nearly settled pool restores the full invariant |
| PoolProperties.AdjustedKeepsWf | MyThreadPool/WorkerThreadPool.cs:309-317 | the shrink keeps the roster consistent, unregisters exactly the disposed workers (each once) and stops no lower than capacity |
| PoolProperties.AdjustNeverDisposesBusy | MyThreadPool/WorkerThreadPool.cs:311-315 | the shrink leaves the busy list alone and disposes only idle workers |
| PoolProperties.DrainIsFifo | MyThreadPool/WorkerThreadPool.cs:103-110 | the dispatch loop starts the queue's items from the head in order and leaves the rest queued |
| PoolProperties.DrainKeepsCountdown | MyThreadPool/WorkerThreadPool.cs:103-110 | the dispatch loop keeps a registered worker that is not idle registered and not idle |
| PoolProperties.DrainCount | MyThreadPool/WorkerThreadPool.cs:103-110 | the dispatch loop starts as many items as the queue holds or the idle workers plus free capacity allow, whichever is smaller |
| PoolProperties.DrainEnds | MyThreadPool/WorkerThreadPool.cs:105 | after the loop matching fails: the queue is empty, or no worker is idle and the pool is full |
| PoolProperties.DrainKeepsInv | MyThreadPool/WorkerThreadPool.cs:103-110 | the dispatch loop restores the invariant of a pool within capacity |
| PoolProperties.ResizeKeepsInv | MyThreadPool/WorkerThreadPool.cs:93-112 | a resize keeps the invariant; below 1 it faults without a change; otherwise it sets the size, disposes only idle workers and leaves nothing matchable |
| PoolProperties.ResizeDrainsQueue | MyThreadPool/WorkerThreadPool.cs:100-110 | growing a pool with work waiting starts as many items as the queue holds or the new room allows, whichever is smaller, from the head in order |
| PoolProperties.ResizeAfterDispose | MyThreadPool/WorkerThreadPool.cs:93-112 | on a disposed pool a resize only raises the capacity, which is then reported as available |
| PoolProperties.SubmitEnqueuesAtTail | MyThreadPool/WorkerThreadPool.cs:156-170 | disposed: fault; full queue: false; both unchanged; otherwise true, the countdown stopped, the work count up by one, and the item started at once exactly when the queue was empty and a worker was idle or could be spawned, else queued at the tail |
| PoolProperties.SubmitCancelsEviction | MyThreadPool/WorkerThreadPool.cs:164 | after a submission the next countdown step stops without evicting |
| PoolProperties.ReturnedKeepsWf | MyThreadPool/WorkerThreadPool.cs:293-294 | returning a busy or borrowed worker keeps the roster consistent, puts it last in the idle queue, and with work waiting it is the only idle worker |
| PoolProperties.WorkCompleteKeepsInv | MyThreadPool/WorkerThreadPool.cs:282-301 | a completion keeps the invariant and the log; a disposed pool ignores it |
| PoolProperties.WorkCompleteFate | MyThreadPool/WorkerThreadPool.cs:293-300 | the finishing worker ends up idle, disposed by the shrink or handed the next job; a worker is borrowed only when nothing was queued |
| PoolProperties.WorkCompleteBusyCount | MyThreadPool/WorkerThreadPool.cs:293-300 | the busy count falls by one unless the re-match dispatches; no disposed worker is busy |
| PoolProperties.ReleaseLogsOneRecord | MyThreadPool/WorkerThreadPool.cs:351-376 | exactly one record is appended listing every registered worker once, in order; earlier records stay; roster and queue are emptied; the capacity stays |
| PoolProperties.TickStepKeepsInv | MyThreadPool/WorkerThreadPool.cs:328-346 | no spin: stop without a change; before the deadline: keep waiting without a change; at or after it: every worker is released in one record and the spin flag is cleared, and the pool had nothing queued and no worker busy; always keeps the invariant |
| PoolProperties.NoBorrowDuringCountdown | MyThreadPool/WorkerThreadPool.cs:238-257 | while a registered worker is not idle, matching never borrows, so the release time stays; that worker stays registered and not idle |
| PoolProperties.CountdownDeadline | MyThreadPool/WorkerThreadPool.cs:254-262 | a borrow sets the spin flag and the release time to the borrow time plus the keep-alive interval (clamped), and a countdown step against it evicts exactly when that time has come |
| PoolProperties.SubmitKeepsCountdown | MyThreadPool/WorkerThreadPool.cs:156-170 | a submission during the countdown keeps the release time and the countdown worker |
| PoolProperties.ResizeKeepsCountdown | MyThreadPool/WorkerThreadPool.cs:93-112 | a resize during the countdown keeps the release time and the countdown worker |
| PoolProperties.WorkCompleteKeepsCountdown | MyThreadPool/WorkerThreadPool.cs:290-300 | another worker's completion during the countdown keeps the release time and the countdown worker |
| PoolProperties.DisposeReleasesAll | MyThreadPool/WorkerThreadPool.cs:387-400 | keeps the invariant; afterwards every submission faults; the first call logs one final record, sets the capacity to 0 and leaves no thread available and no work |
| PoolProperties.DisposeIdempotent | MyThreadPool/WorkerThreadPool.cs:389-396 | disposing twice is disposing once |
| PoolProperties.InitialInv | MyThreadPool/WorkerThreadPool.cs:39-49 | a new pool satisfies the invariant |
| WorkItems.WorkItem.constructor | MyThreadPool/WorkerThreadPool.cs:420-427 | holds the callback and state, not yet executed |
| WorkItems.WorkItem.Execute | MyThreadPool/WorkerThreadPool.cs:429-436 | runs exactly once; a second call faults |
| Workers.WorkerThread.constructor | MyThreadPool/WorkerThread.cs:17-23 | a new worker is idle, undisposed, unsignalled and has no action |
| Workers.WorkerThread.SetWork | MyThreadPool/WorkerThread.cs:48-56 | faults on a disposed worker, then on a busy one; otherwise stores the action |
| Workers.WorkerThread.Activate | MyThreadPool/WorkerThread.cs:58-67 | faults on a disposed, busy or action-less worker, in that order; otherwise sets the event |
| Workers.WorkerThread.SubscribeComplete | MyThreadPool/WorkerThreadPool.cs:275 | the pool's completion handler is subscribed |
| Workers.WorkerThread.UnsubscribeComplete | MyThreadPool/WorkerThreadPool.cs:281 | the pool's completion handler is unsubscribed |
| Workers.WorkerThread.Wake | MyThreadPool/WorkerThread.cs:71-80 | a disposed worker leaves its loop; an unset event keeps it parked; a set event is consumed and the worker becomes busy |
| Workers.WorkerThread.Finish | MyThreadPool/WorkerThread.cs:87-102 | the worker is idle again with no action, the completion handler runs once if subscribed (its faults swallowed), and a disposed worker leaves its loop |
| Workers.WorkerThread.Dispose | MyThreadPool/WorkerThread.cs:112-130 | marks the worker disposed once; the thread is aborted only when another thread disposes it |

## Left out

- Real threads, the auto-reset event's blocking and `Thread.Sleep`: each locked body is one atomic step, and the pool's steps are not interleaved with the workers' flag steps in one combined proof.
- The lock: mutual exclusion is assumed by treating each locked body as atomic. The double-checked `_disposed` test outside the lock in `Dispose` and `WorkComplete` collapses into the locked check.
- Pool.WorkerThreadPool.SetPoolSize: `ActivateWorkerThread` runs inside the lock in the source. The model returns the activations in order for the caller to perform, as it does for `QueueWorkItem` and `WorkComplete`.
- The pool holds worker ids, not `WorkerThread` objects. Disposing a worker from `AdjustPool` or `ReleaseThreads` is recorded as the returned ids, not as calls on the worker objects. Subscription to `Complete` is tracked only on the `WorkerThread` object: the pool's steps do not perform the two removals of the handler, the one at the start of `WorkComplete` (MyThreadPool/WorkerThreadPool.cs:281) and the one before eviction in `Tick` (MyThreadPool/WorkerThreadPool.cs:338).
- `KeepAliveTime` is a `double` in the source. It is modelled as whole milliseconds (`int`), and `DateTime` as whole milliseconds in `[0, DateTime.MaxValue]`.
- The `Tick` loop itself (read the deadline, sleep, repeat): only its locked step is modelled, as `TickStep`, which takes the deadline the countdown read when it started. That this deadline is the pool's release time, and that the release time stays fixed during the whole countdown, is proved about the pool's steps (`CountdownDeadline`, `NoBorrowDuringCountdown` and the `...KeepsCountdown` lemmas), not about the interleaved loop.
- PoolSpec.TickStep and Pool.WorkerThreadPool.TickStep: they require a pool that is not disposed. `Dispose` disposes the countdown worker from another thread, which aborts it (MyThreadPool/WorkerThread.cs:121-124), so `Tick`'s locked step does not run after disposal. The abort itself is not modelled.
- Integers are unbounded. In the source, `GetWorkCount`'s sum of two counts is a 32-bit `int` and could wrap; the model does not model that wrap-around. The `int.MaxValue` queue-length guard of `QueueWorkItem` is kept as written, though no real queue reaches it.
- `TrimExcess` calls: they change capacity only, not contents.
- The finalizer (MyThreadPool/WorkerThreadPool.cs:53-56): it only calls `Dispose`, which is modelled, but when the garbage collector runs it is not. `Dispose(bool)` is empty, and `GC.SuppressFinalize` only tells the runtime to skip the finalizer.
- `IThreadPool`, `ThreadPoolFactory` and `DefaultThreadPoolFactory` are not part of this model.
- `ReleaseThreadsRecord.Clone` and the parameterless record constructor: records are values here, so a clone is the record itself. For the same reason, `GetReleaseThreadsRecords` handing out aliases of the mutable records is not modelled.
- The null check in the `WorkItem` constructor: the callback type has no null.
- The callbacks themselves and their faults: a user callback is an opaque token, and the countdown callback is named by the worker it runs on.
- `WorkerThread.ThreadState`: it is a pass-through to the runtime.
- The reuse of managed thread ids after a thread ends: spawned workers get ids that were never handed out.
- Pool.WorkerThreadPool.WorkComplete: it requires that the worker is registered and not idle, or that the pool is disposed. In the source only a worker handed work has the handler subscribed, and the model does not prove that link across objects.
