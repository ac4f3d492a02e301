/** WorkerThreadPool: the pool object. Each method is one body that runs under
    the pool's lock, proved to change the fields exactly as the matching step
    of module PoolSpec says, and to keep the invariant Inv. */
module Pool {
  import opened Basics
  import opened WorkItems
  import opened Workers
  import opened PoolSpec
  import opened PoolProperties

  /** How an activation returned by matching realizes the pairing: a matched
      item is handed over as it is, a borrowed worker receives a countdown
      item of its own. */
  predicate Realizes(next: Option<Activation>, p: Pairing) {
    match p
    case NoPair => next == None
    case Dispatch(w, item) => next == Some(Activation(w, item))
    case Borrow(w) =>
      next.Some? && next.value.worker == w
      && next.value.item.callback == TickCountdown(w) && next.value.item.state == w
  }

  class WorkerThreadPool {
    var disposed: bool
    var spin: bool
    var keepAliveTime: int
    var releaseTime: Instant
    var threads: int
    var allThreads: seq<int>
    var workingThreads: seq<int>
    var freeThreads: seq<int>
    var workQueue: seq<WorkItem>
    var releaseThreadsRecords: seq<ReleaseThreadsRecord>
    var nextThreadId: int

    /** The fields as one value. */
    function State(): PoolState
      reads this
    {
      PoolState(threads, keepAliveTime, allThreads, freeThreads, workingThreads, workQueue,
                spin, releaseTime, disposed, releaseThreadsRecords, nextThreadId)
    }

    ghost predicate Valid()
      reads this
    {
      Inv(State())
    }

    constructor (threads: int, now: Instant)
      requires threads >= 1
      ensures Valid() && State() == Initial(threads, now)
    {
      disposed := false;
      spin := false;
      keepAliveTime := -1;
      releaseTime := now;
      this.threads := threads;
      allThreads := [];
      workingThreads := [];
      freeThreads := [];
      workQueue := [];
      releaseThreadsRecords := [];
      nextThreadId := 1;
      new;
      InitialInv(threads, now);
    }

    /** The parameterless constructor: a pool of DefaultThreads workers. */
    constructor Default(now: Instant)
      ensures Valid() && State() == Initial(DefaultThreads, now)
    {
      disposed := false;
      spin := false;
      keepAliveTime := -1;
      releaseTime := now;
      threads := DefaultThreads;
      allThreads := [];
      workingThreads := [];
      freeThreads := [];
      workQueue := [];
      releaseThreadsRecords := [];
      nextThreadId := 1;
      new;
      InitialInv(DefaultThreads, now);
    }

    /** The sized constructor, which throws for a size below 1. */
    static method Create(threads: int, now: Instant) returns (r: Result<WorkerThreadPool>)
      ensures threads < 1 ==> r == Err(InvalidThreads)
      ensures threads >= 1 ==> r.Ok? && fresh(r.value) && r.value.Valid() && r.value.State() == Initial(threads, now)
    {
      if threads < 1 {
        return Err(InvalidThreads);
      }
      var pool := new WorkerThreadPool(threads, now);
      r := Ok(pool);
    }

    /** The getter of Threads. */
    method GetPoolSize() returns (r: int)
      ensures r == threads
    {
      r := threads;
    }

    /** The getter of KeepAliveTime, in milliseconds. */
    method GetKeepAliveTime() returns (r: int)
      ensures r == keepAliveTime
    {
      r := keepAliveTime;
    }

    /** The setter of KeepAliveTime; a negative value disables eviction. */
    method SetKeepAliveTime(t: int)
      requires Valid()
      modifies this`keepAliveTime
      ensures Valid()
      ensures State() == old(State()).(keepAliveTime := t)
    {
      keepAliveTime := t;
    }

    /** GetAvailableThreads. */
    method GetAvailableThreads() returns (r: int)
      ensures r == AvailableThreads(State())
      ensures r >= 0 && r >= threads - |workingThreads|
      ensures r == 0 || r == threads - |workingThreads|
    {
      if threads <= |workingThreads| {
        return 0;
      }
      r := threads - |workingThreads|;
    }

    /** GetWorkCount. */
    method GetWorkCount() returns (r: int)
      ensures r == WorkCount(State())
    {
      r := |workQueue| + |workingThreads|;
    }

    /** GetReleaseThreadsRecords: a new list holding the log's records in
        order. */
    method GetReleaseThreadsRecords() returns (list: seq<ReleaseThreadsRecord>)
      ensures list == releaseThreadsRecords
    {
      list := [];
      var i := 0;
      while i < |releaseThreadsRecords|
        invariant 0 <= i <= |releaseThreadsRecords|
        invariant list == releaseThreadsRecords[..i]
      {
        list := list + [releaseThreadsRecords[i]];
        i := i + 1;
      }
    }

    /** SetPoolSize: sets the size, shrinks, then dispatches until matching
        fails. Gives the workers disposed by the shrink and the activations,
        in order. */
    method SetPoolSize(n: int) returns (r: Outcome, removed: seq<int>, dispatched: seq<Activation>)
      requires Valid()
      modifies this
      ensures Valid()
      ensures var z := Resized(old(State()), n);
        State() == z.state && r == z.outcome && removed == z.removed && dispatched == z.dispatched
    {
      ResizeKeepsInv(State(), n);
      if n < 1 {
        return Fail(InvalidThreads), [], [];
      }
      threads := n;
      removed := AdjustPool();
      dispatched := DispatchAll();
      r := Pass;
    }

    /** The dispatch loop of SetPoolSize: match as an external caller until
        matching hands out nothing. Gives the activations, in order. */
    method DispatchAll() returns (dispatched: seq<Activation>)
      modifies this
      ensures var d := Drain(old(State())); State() == d.0 && dispatched == d.1
    {
      dispatched := [];
      ghost var target := Drain(State());
      while true
        invariant Drain(State()).0 == target.0 && dispatched + Drain(State()).1 == target.1
        decreases |workQueue|
      {
        ghost var before := State();
        var next := TryGetWorkerThreadAndWorkItem(External);
        if next.None? {
          break;
        }
        assert Drain(before).1 == [next.value] + Drain(State()).1;
        dispatched := dispatched + [next.value];
      }
    }

    /** QueueWorkItem. A null callback gives false at once; after the lock is
        taken a disposed pool faults and a full queue gives false. Gives the
        item queued, if any, and the activation matching produced. */
    method QueueWorkItem(callback: Option<Callback>, state: int)
      returns (r: Result<bool>, queued: WorkItem?, next: Option<Activation>)
      requires Valid()
      modifies this
      ensures Valid()
      ensures callback == None ==> r == Ok(false) && queued == null && next == None && State() == old(State())
      ensures callback != None && old(disposed) ==>
        r == Err(ObjectDisposed) && queued == null && next == None && State() == old(State())
      ensures callback != None && !old(disposed) && |old(workQueue)| == IntMax ==>
        r == Ok(false) && queued == null && next == None && State() == old(State())
      ensures callback != None && !old(disposed) && |old(workQueue)| != IntMax ==>
        && queued != null && fresh(queued) && !queued.executed
        && queued.callback == callback.value && queued.state == state
        && var sub := Submitted(old(State()), queued);
           State() == sub.state && r == sub.result && Realizes(next, sub.pair)
    {
      if callback == None {
        return Ok(false), null, None;
      }
      if disposed {
        return Err(ObjectDisposed), null, None;
      }
      if |workQueue| == IntMax {
        return Ok(false), null, None;
      }
      var item := new WorkItem(callback.value, state);
      queued := item;
      SubmitEnqueuesAtTail(State(), item);
      workQueue := workQueue + [item];
      spin := false;
      next := TryGetWorkerThreadAndWorkItem(External);
      r := Ok(true);
    }

    /** TryGetWorkerThreadAndWorkItem, run under the lock. A borrowed worker
        receives a fresh item that runs the countdown on it. */
    method TryGetWorkerThreadAndWorkItem(caller: Caller) returns (next: Option<Activation>)
      modifies this
      ensures var m := Match(old(State()), caller);
        && State() == m.state && Realizes(next, m.pair)
        && (m.pair.Borrow? ==> next.Some? && fresh(next.value.item) && !next.value.item.executed)
    {
      if |workQueue| > 0 {
        if |freeThreads| > 0 {
          var w := freeThreads[0];
          freeThreads := freeThreads[1..];
          var item := workQueue[0];
          workQueue := workQueue[1..];
          workingThreads := workingThreads + [w];
          return Some(Activation(w, item));
        }
        if |allThreads| < threads {
          var w := nextThreadId;
          nextThreadId := nextThreadId + 1;
          var item := workQueue[0];
          workQueue := workQueue[1..];
          allThreads := allThreads + [w];
          workingThreads := workingThreads + [w];
          return Some(Activation(w, item));
        }
        return None;
      }
      if caller.External? {
        return None;
      }
      var t := keepAliveTime;
      if t < 0 {
        return None;
      }
      if |freeThreads| == |allThreads| && |workingThreads| == 0 && |freeThreads| > 0 {
        if caller.threadId in allThreads {
          var w := freeThreads[0];
          freeThreads := freeThreads[1..];
          var tick := new WorkItem(TickCountdown(w), w);
          spin := true;
          releaseTime := ReleaseDeadline(caller.now, t);
          return Some(Activation(w, tick));
        }
      }
      next := None;
    }

    /** ActivateWorkerThread: hands the item's Execute to the worker,
        subscribes the pool's completion handler and wakes the worker. A fault
        of SetWork propagates before anything else happens. */
    method ActivateWorkerThread(workerThread: WorkerThread, workItem: WorkItem) returns (r: Outcome)
      requires workerThread.Valid()
      modifies workerThread`action, workerThread`completeAttached, workerThread`signaled
      ensures workerThread.Valid()
      ensures r == Pass <==> !old(workerThread.disposed) && !old(workerThread.isWorking)
      ensures r == Pass ==>
        workerThread.action == Some(workItem) && workerThread.completeAttached && workerThread.signaled
      ensures r != Pass ==> unchanged(workerThread)
    {
      r := workerThread.SetWork(workItem);
      if r != Pass {
        return;
      }
      workerThread.SubscribeComplete();
      r := workerThread.Activate();
    }

    /** WorkComplete, run on the finishing worker's own thread at time now:
        the worker leaves the busy list, if it was on it, and joins the tail
        of the idle queue, the pool shrinks, and matching runs as a pool
        thread. A disposed pool ignores the call. */
    method WorkComplete(worker: int, now: Instant) returns (removed: seq<int>, next: Option<Activation>)
      requires Valid() && CanComplete(State(), worker)
      modifies this
      ensures Valid()
      ensures var c := WorkCompleted(old(State()), worker, now);
        && State() == c.state && removed == c.removed && Realizes(next, c.pair)
        && (c.pair.Borrow? ==> next.Some? && fresh(next.value.item) && !next.value.item.executed)
    {
      if disposed {
        return [], None;
      }
      WorkCompleteKeepsInv(State(), worker, now);
      workingThreads := RemoveFirst(workingThreads, worker);
      freeThreads := freeThreads + [worker];
      removed := AdjustPool();
      next := TryGetWorkerThreadAndWorkItem(PoolThread(worker, now));
    }

    /** AdjustPool, run under the lock. Gives the workers it disposed. */
    method AdjustPool() returns (removed: seq<int>)
      modifies this
      ensures var a := Adjusted(old(State())); State() == a.0 && removed == a.1
    {
      ghost var target := Shrink(threads, allThreads, freeThreads);
      var all, free, n := allThreads, freeThreads, threads;
      removed := [];
      while |all| > n && |free| > 0
        invariant Shrink(n, all, free).0 == target.0 && Shrink(n, all, free).1 == target.1
        invariant removed + Shrink(n, all, free).2 == target.2
        modifies {}
        decreases |free|
      {
        var w := free[0];
        free := free[1..];
        all := RemoveFirst(all, w);
        removed := removed + [w];
      }
      allThreads, freeThreads := all, free;
    }

    /** One locked decision of Tick, against the deadline the countdown read
        when it started. Gives the ids of the workers released, if any. */
    method TickStep(deadline: Instant, now: Instant) returns (r: TickOutcome, released: seq<int>)
      requires Valid() && !disposed
      modifies this
      ensures Valid()
      ensures var t := PoolSpec.TickStep(old(State()), deadline, now); State() == t.state && r == t.outcome
      ensures released == if r == Evicted then old(allThreads) else []
    {
      TickStepKeepsInv(State(), deadline, now);
      if !spin {
        return Stopped, [];
      }
      if now >= deadline {
        released := ReleaseThreads(now);
        spin := false;
        return Evicted, released;
      }
      r, released := KeepWaiting, [];
    }

    /** ReleaseThreads, run under the lock: collects the ids of the registered
        workers into one record (disposing each), logs it and empties the
        roster and the queue. Gives the ids of the disposed workers. */
    method ReleaseThreads(now: Instant) returns (released: seq<int>)
      modifies this
      ensures State() == Released(old(State()), now)
      ensures released == old(allThreads)
    {
      var ids: seq<int> := [];
      var i := 0;
      while i < |allThreads|
        invariant 0 <= i <= |allThreads|
        invariant ids == allThreads[..i]
      {
        ids := ids + [allThreads[i]];
        i := i + 1;
      }
      assert allThreads[..i] == allThreads;
      released := ids;
      releaseThreadsRecords := releaseThreadsRecords + [ReleaseThreadsRecord(now, ids)];
      allThreads := [];
      freeThreads := [];
      workingThreads := [];
      workQueue := [];
    }

    /** Dispose: releases every worker once and marks the pool disposed; a
        second call does nothing. Gives the ids of the workers released. */
    method Dispose(now: Instant) returns (released: seq<int>)
      requires Valid()
      modifies this
      ensures Valid()
      ensures State() == Disposed(old(State()), now)
      ensures released == if old(disposed) then [] else old(allThreads)
    {
      DisposeReleasesAll(State(), now);
      if disposed {
        return [];
      }
      released := ReleaseThreads(now);
      threads := 0;
      disposed := true;
    }
  }
}
