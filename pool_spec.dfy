/** The scheduling bookkeeping of WorkerThreadPool as a value: the state the
    pool keeps under its lock, and one function per locked step. Each
    function is the meaning of one method of the class in module Pool. */
module PoolSpec {
  import opened Basics
  import opened WorkItems

  /** DateTime.MaxValue, in whole milliseconds since 0001-01-01. */
  const MaxTime: int := 315537897599999

  /** A point in time, in milliseconds; DateTime cannot exceed MaxTime. */
  type Instant = t: int | 0 <= t <= MaxTime

  /** int.MaxValue: the queue length at which QueueWorkItem gives up. */
  const IntMax: int := 0x7FFF_FFFF

  /** The pool size of the parameterless constructor. */
  const DefaultThreads: int := 25

  /** One entry of the eviction log: when it happened and the ids of the
      workers it released, in registration order. */
  datatype ReleaseThreadsRecord = ReleaseThreadsRecord(releaseTime: Instant, threadIds: seq<int>)

  /** Who runs the matching rule. A worker thread calling from its completion
      handler also reads its own thread id and the clock. */
  datatype Caller = External | PoolThread(threadId: int, now: Instant)

  /** What matching hands out: nothing, an item for a worker, or a free worker
      borrowed to run the idle countdown. */
  datatype Pairing = NoPair | Dispatch(worker: int, item: WorkItem) | Borrow(worker: int)

  /** The fields of the pool. The FIFOs have their head at index 0. Workers are
      known by their thread ids; nextThreadId is the id the next spawned worker
      receives (managed thread ids are unique). */
  datatype PoolState = PoolState(
    threads: int,
    keepAliveTime: int,
    allThreads: seq<int>,
    freeThreads: seq<int>,
    workingThreads: seq<int>,
    workQueue: seq<WorkItem>,
    spin: bool,
    releaseTime: Instant,
    disposed: bool,
    releaseThreadsRecords: seq<ReleaseThreadsRecord>,
    nextThreadId: int)

  datatype MatchResult = MatchResult(state: PoolState, pair: Pairing)

  /** A worker and the item it is to run, activated once the lock is free. */
  datatype Activation = Activation(worker: int, item: WorkItem)

  datatype SubmitResult = SubmitResult(state: PoolState, result: Result<bool>, pair: Pairing)

  /** The outcome of a completion: the new state, the workers the shrink
      disposed, and what the re-match handed out. */
  datatype CompleteResult = CompleteResult(state: PoolState, removed: seq<int>, pair: Pairing)

  datatype ResizeResult = ResizeResult(
    state: PoolState, outcome: Outcome, removed: seq<int>, dispatched: seq<Activation>)

  datatype TickOutcome = Stopped | Evicted | KeepWaiting

  datatype TickResult = TickResult(state: PoolState, outcome: TickOutcome)

  predicate NoDup<T(==)>(xs: seq<T>) {
    forall i, j :: 0 <= i < j < |xs| ==> xs[i] != xs[j]
  }

  /** The position of the first occurrence of x in xs. */
  function FirstIndex<T(==)>(xs: seq<T>, x: T): (i: nat)
    requires x in xs
    ensures i < |xs| && xs[i] == x && x !in xs[..i]
  {
    if xs[0] == x then 0
    else
      var j := FirstIndex(xs[1..], x);
      assert xs[..j + 1] == [xs[0]] + xs[1..][..j];
      j + 1
  }

  /** List.Remove: drops the first occurrence of x, if any, and keeps the
      order of the other elements. */
  function RemoveFirst<T(==)>(xs: seq<T>, x: T): (r: seq<T>)
    ensures x in xs ==> |r| == |xs| - 1
    ensures x !in xs ==> r == xs
    ensures forall y :: y in r ==> y in xs
    ensures forall y :: y in xs && y != x ==> y in r
    ensures NoDup(xs) ==> NoDup(r) && x !in r
  {
    if xs == [] then []
    else if xs[0] == x then xs[1..]
    else
      var rest := RemoveFirst(xs[1..], x);
      assert forall y :: y in xs[1..] && y != x ==> y in rest;
      assert NoDup(xs) ==> xs[0] !in xs[1..] && NoDup(xs[1..]);
      [xs[0]] + rest
  }

  /** RemoveFirst drops exactly the first occurrence of x: the elements before
      and after it stay, in order. */
  lemma {:induction false} RemoveFirstSplices<T>(xs: seq<T>, x: T)
    requires x in xs
    ensures RemoveFirst(xs, x) == xs[..FirstIndex(xs, x)] + xs[FirstIndex(xs, x) + 1..]
  {
    if xs[0] != x {
      RemoveFirstSplices(xs[1..], x);
      var j := FirstIndex(xs[1..], x);
      assert xs[..j + 1] == [xs[0]] + xs[1..][..j];
      assert xs[j + 2..] == xs[1..][j + 1..];
    }
  }

  /** now.AddMilliseconds(t), with DateTime.MaxValue when that overflows. */
  function ReleaseDeadline(now: Instant, t: int): (r: Instant)
    requires t >= 0
    ensures now <= r
    ensures now + t <= MaxTime ==> r == now + t
    ensures now + t > MaxTime ==> r == MaxTime
  {
    if now + t > MaxTime then MaxTime else now + t
  }

  /** GetAvailableThreads: the capacity not used by busy workers, never
      negative. */
  function AvailableThreads(s: PoolState): (r: int)
    ensures r >= 0 && r >= s.threads - |s.workingThreads|
    ensures r == 0 || r == s.threads - |s.workingThreads|
  {
    if s.threads <= |s.workingThreads| then 0 else s.threads - |s.workingThreads|
  }

  /** GetWorkCount: items waiting plus items running. */
  function WorkCount(s: PoolState): (r: int)
    ensures r >= 0
    ensures r == 0 <==> s.workQueue == [] && s.workingThreads == []
  {
    |s.workQueue| + |s.workingThreads|
  }

  // ----- Invariants -----

  /** The roster is consistent: each worker is registered once, idle and busy
      workers are disjoint registered workers, at most one registered worker
      is neither (the one borrowed for the idle countdown), ids of registered
      workers were handed out already, and a disposed pool holds nothing. */
  ghost predicate Wf(s: PoolState) {
    && s.threads >= 0
    && (!s.disposed ==> s.threads >= 1)
    && NoDup(s.allThreads) && NoDup(s.freeThreads) && NoDup(s.workingThreads)
    && (forall w :: w in s.freeThreads ==> w in s.allThreads)
    && (forall w :: w in s.workingThreads ==> w in s.allThreads && w !in s.freeThreads)
    && |s.allThreads| <= |s.freeThreads| + |s.workingThreads| + 1
    && (forall w :: w in s.allThreads ==> w < s.nextThreadId)
    && (s.disposed ==> s.allThreads == [] && s.freeThreads == [] && s.workingThreads == [] && s.workQueue == [])
  }

  /** After a shrink, the pool is within capacity or has no idle worker left. */
  ghost predicate WithinCapacity(s: PoolState) {
    |s.allThreads| <= s.threads || s.freeThreads == []
  }

  /** Work never waits while it could be matched: a non-empty queue means no
      worker is idle and no new worker may be spawned. */
  ghost predicate NoIdleWhileQueued(s: PoolState) {
    s.workQueue != [] ==> s.freeThreads == [] && |s.allThreads| >= s.threads
  }

  /** The countdown runs only on an idle pool: while the spin flag is set,
      nothing is queued and no worker is busy. */
  ghost predicate SpinIdle(s: PoolState) {
    s.spin ==> s.workQueue == [] && s.workingThreads == []
  }

  /** What holds whenever the lock is free. */
  ghost predicate Inv(s: PoolState) {
    Wf(s) && WithinCapacity(s) && NoIdleWhileQueued(s) && SpinIdle(s)
  }

  /** Whether a completion of worker w can reach the pool: only a worker that
      was handed work (busy, or borrowed for the countdown) has the handler
      subscribed, and after disposal an aborted worker may still call it. */
  ghost predicate CanComplete(s: PoolState, w: int) {
    s.disposed || (w in s.allThreads && w !in s.freeThreads)
  }

  // ----- Steps -----

  /** The constructor: an empty pool of the given size. */
  function Initial(threads: int, now: Instant): (r: PoolState)
    ensures WorkCount(r) == 0 && r.releaseThreadsRecords == [] && !r.disposed && !r.spin
    ensures threads >= 0 ==> AvailableThreads(r) == threads
  {
    PoolState(threads, -1, [], [], [], [], false, now, false, [], 1)
  }

  /** TryGetWorkerThreadAndWorkItem. */
  function Match(s: PoolState, caller: Caller): (r: MatchResult)
    ensures r.pair.NoPair? ==> r.state == s
    ensures r.pair.Dispatch? ==> |s.workQueue| > 0 && r.pair.item == s.workQueue[0] && r.state.workQueue == s.workQueue[1..]
    ensures !r.pair.Dispatch? ==> r.state.workQueue == s.workQueue
    ensures r.pair.Borrow? ==> caller.PoolThread?
  {
    if |s.workQueue| > 0 then
      if |s.freeThreads| > 0 then
        var w := s.freeThreads[0];
        MatchResult(
          s.(freeThreads := s.freeThreads[1..], workQueue := s.workQueue[1..],
             workingThreads := s.workingThreads + [w]),
          Dispatch(w, s.workQueue[0]))
      else if |s.allThreads| < s.threads then
        var w := s.nextThreadId;
        MatchResult(
          s.(nextThreadId := w + 1, workQueue := s.workQueue[1..],
             allThreads := s.allThreads + [w], workingThreads := s.workingThreads + [w]),
          Dispatch(w, s.workQueue[0]))
      else
        MatchResult(s, NoPair)
    else if caller.External? || s.keepAliveTime < 0 then
      MatchResult(s, NoPair)
    else if && |s.freeThreads| == |s.allThreads| && |s.workingThreads| == 0
            && |s.freeThreads| > 0 && caller.threadId in s.allThreads then
      MatchResult(
        s.(freeThreads := s.freeThreads[1..], spin := true,
           releaseTime := ReleaseDeadline(caller.now, s.keepAliveTime)),
        Borrow(s.freeThreads[0]))
    else
      MatchResult(s, NoPair)
  }

  /** The loop of AdjustPool on the roster: while more than n workers are
      registered and one is idle, dequeue the first idle worker and unregister
      it. Gives the registered list, the idle list and the workers disposed,
      in order. */
  function Shrink(n: int, all: seq<int>, free: seq<int>): (r: (seq<int>, seq<int>, seq<int>))
    ensures |r.2| <= |free|
    ensures r.2 == free[..|r.2|]
    ensures r.1 == free[|r.2|..]
    ensures |r.0| <= n || r.1 == []
    decreases |free|
  {
    if |all| > n && |free| > 0 then
      var rest := Shrink(n, RemoveFirst(all, free[0]), free[1..]);
      assert free[1..][|rest.2|..] == free[1 + |rest.2|..];
      (rest.0, rest.1, [free[0]] + rest.2)
    else
      (all, free, [])
  }

  /** AdjustPool: the shrink applied to the pool. Gives the state and the
      workers disposed, in order. */
  function Adjusted(s: PoolState): (r: (PoolState, seq<int>))
    ensures |r.1| <= |s.freeThreads|
    ensures r.1 == s.freeThreads[..|r.1|]
    ensures r.0.freeThreads == s.freeThreads[|r.1|..]
    ensures r.0 == s.(allThreads := r.0.allThreads, freeThreads := r.0.freeThreads)
    ensures WithinCapacity(r.0)
  {
    var k := Shrink(s.threads, s.allThreads, s.freeThreads);
    (s.(allThreads := k.0, freeThreads := k.1), k.2)
  }

  /** The dispatch loop of SetPoolSize: match as an external caller until
      matching fails. Gives the state and the pairs handed out, in order. */
  function Drain(s: PoolState): (r: (PoolState, seq<Activation>))
    ensures |r.1| <= |s.workQueue|
    ensures r.0.threads == s.threads && r.0.keepAliveTime == s.keepAliveTime && r.0.disposed == s.disposed
    ensures r.0.spin == s.spin && r.0.releaseTime == s.releaseTime
    ensures r.0.releaseThreadsRecords == s.releaseThreadsRecords
    decreases |s.workQueue|
  {
    var m := Match(s, External);
    if m.pair.Dispatch? then
      var rest := Drain(m.state);
      (rest.0, [Activation(m.pair.worker, m.pair.item)] + rest.1)
    else
      (s, [])
  }

  /** SetPoolSize. */
  function Resized(s: PoolState, n: int): (r: ResizeResult)
    ensures r.outcome == Pass <==> n >= 1
    ensures n >= 1 ==> r.state.threads == n
    ensures r.state.disposed == s.disposed && r.state.releaseThreadsRecords == s.releaseThreadsRecords
  {
    if n < 1 then ResizeResult(s, Fail(InvalidThreads), [], [])
    else
      var a := Adjusted(s.(threads := n));
      var d := Drain(a.0);
      ResizeResult(d.0, Pass, a.1, d.1)
  }

  /** QueueWorkItem with a non-null callback, whose new item is `item`. */
  function Submitted(s: PoolState, item: WorkItem): (r: SubmitResult)
    ensures r.result.Err? <==> s.disposed
    ensures r.result == Ok(true) <==> !s.disposed && |s.workQueue| != IntMax
    ensures !r.pair.Borrow?
  {
    if s.disposed then SubmitResult(s, Err(ObjectDisposed), NoPair)
    else if |s.workQueue| == IntMax then SubmitResult(s, Ok(false), NoPair)
    else
      var m := Match(s.(workQueue := s.workQueue + [item], spin := false), External);
      SubmitResult(m.state, Ok(true), m.pair)
  }

  /** The first two statements of WorkComplete: w leaves the busy list and
      joins the tail of the idle queue. */
  function Returned(s: PoolState, w: int): (r: PoolState)
    ensures r.freeThreads != [] && r.freeThreads[|r.freeThreads| - 1] == w
    ensures NoDup(s.workingThreads) ==> w !in r.workingThreads
    ensures w in s.workingThreads ==> |r.workingThreads| == |s.workingThreads| - 1
  {
    s.(workingThreads := RemoveFirst(s.workingThreads, w), freeThreads := s.freeThreads + [w])
  }

  /** WorkComplete for worker w, run on w's own thread at time now. */
  function WorkCompleted(s: PoolState, w: int, now: Instant): (r: CompleteResult)
    ensures r.state.threads == s.threads && r.state.disposed == s.disposed
    ensures r.state.releaseThreadsRecords == s.releaseThreadsRecords
    ensures r.pair.Dispatch? ==> s.workQueue != [] && r.pair.item == s.workQueue[0]
  {
    if s.disposed then CompleteResult(s, [], NoPair)
    else
      var a := Adjusted(Returned(s, w));
      var m := Match(a.0, PoolThread(w, now));
      CompleteResult(m.state, a.1, m.pair)
  }

  /** ReleaseThreads: log one record of every registered worker and empty the
      roster and the queue. */
  function Released(s: PoolState, now: Instant): (r: PoolState)
    ensures WorkCount(r) == 0
    ensures |r.releaseThreadsRecords| == |s.releaseThreadsRecords| + 1
    ensures r.threads == s.threads && r.disposed == s.disposed
  {
    s.(releaseThreadsRecords := s.releaseThreadsRecords + [ReleaseThreadsRecord(now, s.allThreads)],
       allThreads := [], freeThreads := [], workingThreads := [], workQueue := [])
  }

  /** One locked decision of Tick, against the deadline the countdown read
      when it started. Disposal aborts the countdown worker, so this step
      only runs on a pool that is not disposed. */
  function TickStep(s: PoolState, deadline: Instant, now: Instant): (r: TickResult)
    requires !s.disposed
    ensures r.outcome == Stopped <==> !s.spin
    ensures r.outcome == Evicted <==> s.spin && now >= deadline
    ensures r.outcome != Evicted ==> r.state == s
  {
    if !s.spin then TickResult(s, Stopped)
    else if now >= deadline then TickResult(Released(s, now).(spin := false), Evicted)
    else TickResult(s, KeepWaiting)
  }

  /** Dispose. */
  function Disposed(s: PoolState, now: Instant): (r: PoolState)
    ensures r.disposed
    ensures s.disposed ==> r == s
    ensures !s.disposed ==> r.threads == 0 && WorkCount(r) == 0
  {
    if s.disposed then s
    else Released(s, now).(threads := 0, disposed := true)
  }
}
