/** What the pool's locked steps guarantee: the invariants each step keeps,
    the matching rule's cases, FIFO dispatch, capacity accounting, the
    eviction log and disposal. */
module PoolProperties {
  import opened Basics
  import opened WorkItems
  import opened PoolSpec

  // ----- Matching -----

  /** Matching keeps the roster consistent: a dispatched free worker moves to
      the busy list, a spawned worker is new, a borrowed worker leaves the
      idle list only. */
  lemma MatchKeepsWf(s: PoolState, c: Caller)
    requires Wf(s)
    ensures Wf(Match(s, c).state)
  {
    var r := Match(s, c);
    if r.pair.Dispatch? && |s.freeThreads| > 0 {
      assert s.freeThreads[0] !in s.freeThreads[1..];
      assert s.freeThreads[0] !in s.workingThreads;
    } else if r.pair.Dispatch? {
      assert s.nextThreadId !in s.allThreads;
    } else if r.pair.Borrow? {
      assert s.freeThreads[0] !in s.freeThreads[1..];
    }
  }

  /** The three cases of matching with work queued: a free worker takes the
      head item, else a new worker is spawned while below capacity, else
      nothing happens. The registered workers change only by the spawn. */
  lemma MatchWithWork(s: PoolState, c: Caller)
    requires Wf(s) && s.workQueue != []
    ensures var r := Match(s, c);
      && (r.pair.NoPair? <==> s.freeThreads == [] && |s.allThreads| >= s.threads)
      && (r.pair.Dispatch? <==> !r.pair.NoPair?)
      && (s.freeThreads != [] ==>
            && r.pair == Dispatch(s.freeThreads[0], s.workQueue[0])
            && r.state.allThreads == s.allThreads
            && r.state.freeThreads == s.freeThreads[1..]
            && r.state.workingThreads == s.workingThreads + [s.freeThreads[0]])
      && (s.freeThreads == [] && |s.allThreads| < s.threads ==>
            && r.pair.Dispatch? && r.pair.item == s.workQueue[0]
            && r.pair.worker !in s.allThreads
            && r.state.allThreads == s.allThreads + [r.pair.worker]
            && r.state.workingThreads == s.workingThreads + [r.pair.worker]
            && r.state.freeThreads == [])
      && r.state.workQueue == (if r.pair.NoPair? then s.workQueue else s.workQueue[1..])
  {
    if s.freeThreads == [] && |s.allThreads| < s.threads {
      assert s.nextThreadId !in s.allThreads;
    }
  }

  /** With nothing queued, an external caller never gets a pair, and a pool
      thread borrows a worker exactly when eviction is enabled, the pool is
      entirely idle and the caller is one of its workers. */
  lemma MatchWithoutWork(s: PoolState, c: Caller)
    requires s.workQueue == []
    ensures var r := Match(s, c);
      && !r.pair.Dispatch?
      && (c.External? ==> r.pair.NoPair?)
      && (r.pair.Borrow? <==>
            && c.PoolThread? && s.keepAliveTime >= 0
            && |s.freeThreads| == |s.allThreads| && s.workingThreads == []
            && s.freeThreads != [] && c.threadId in s.allThreads)
      && (r.pair.Borrow? ==>
            && r.pair.worker == s.freeThreads[0]
            && r.state == s.(freeThreads := s.freeThreads[1..], spin := true,
                             releaseTime := ReleaseDeadline(c.now, s.keepAliveTime)))
  {
  }

  /** The borrowed worker is hidden from the accounting: it stays registered,
      is neither idle nor busy, and the available-thread and work counts do
      not change. */
  lemma BorrowIsInvisible(s: PoolState, c: Caller)
    requires Wf(s)
    requires Match(s, c).pair.Borrow?
    ensures var r := Match(s, c);
      && r.pair.worker in r.state.allThreads
      && r.pair.worker !in r.state.freeThreads
      && r.pair.worker !in r.state.workingThreads
      && AvailableThreads(r.state) == AvailableThreads(s)
      && WorkCount(r.state) == WorkCount(s)
      && r.state.spin
  {
    assert s.freeThreads[0] !in s.freeThreads[1..];
  }

  /** Matching changes the busy list only by appending a dispatched worker. */
  lemma MatchBusy(s: PoolState, c: Caller)
    ensures var r := Match(s, c);
      r.state.workingThreads == if r.pair.Dispatch? then s.workingThreads + [r.pair.worker] else s.workingThreads
  {
  }

  /** The precondition under which one match leaves the pool settled: within
      capacity, and at most one idle worker when two items or more wait. */
  ghost predicate NearlySettled(s: PoolState) {
    && WithinCapacity(s)
    && (|s.workQueue| >= 2 ==> |s.freeThreads| <= 1 && |s.allThreads| >= s.threads)
  }

  lemma MatchSettles(s: PoolState, c: Caller)
    requires Wf(s) && NearlySettled(s) && SpinIdle(s)
    ensures Inv(Match(s, c).state)
  {
    MatchKeepsWf(s, c);
  }

  // ----- AdjustPool -----

  /** The shrink keeps the roster consistent and disposes only idle workers:
      exactly the removed ones leave the registered list, each removal lowers
      the count by one, and it stops no lower than the capacity. */
  lemma {:induction false} AdjustedKeepsWf(s: PoolState)
    requires Wf(s)
    ensures var r := Adjusted(s);
      && Wf(r.0)
      && |r.0.allThreads| == |s.allThreads| - |r.1|
      && (forall w :: w in r.0.allThreads <==> w in s.allThreads && w !in r.1)
      && (|r.1| > 0 ==> |r.0.allThreads| >= s.threads)
      && NoDup(r.1)
    decreases |s.freeThreads|
  {
    if |s.allThreads| > s.threads && |s.freeThreads| > 0 {
      var w := s.freeThreads[0];
      var s1 := s.(freeThreads := s.freeThreads[1..], allThreads := RemoveFirst(s.allThreads, w));
      assert w !in s.freeThreads[1..];
      assert w !in s.workingThreads;
      assert Wf(s1);
      AdjustedKeepsWf(s1);
      var rest := Adjusted(s1);
      assert w !in rest.1 by {
        assert rest.1 == s1.freeThreads[..|rest.1|];
      }
    }
  }

  /** AdjustPool never disposes a busy worker: it leaves the busy list alone
      and every worker it disposes was idle. */
  lemma AdjustNeverDisposesBusy(s: PoolState)
    requires Wf(s)
    ensures var r := Adjusted(s);
      && r.0.workingThreads == s.workingThreads
      && (forall w :: w in r.1 ==> w in s.freeThreads && w !in s.workingThreads)
  {
    var r := Adjusted(s);
    forall w | w in r.1 ensures w in s.freeThreads {
      assert r.1 == s.freeThreads[..|r.1|];
    }
  }

  // ----- SetPoolSize -----

  /** Workers the dispatch loop can still use: idle ones plus the room left
      below capacity. */
  function Spare(s: PoolState): nat {
    |s.freeThreads| + (if |s.allThreads| < s.threads then s.threads - |s.allThreads| else 0)
  }

  function Min(a: int, b: int): int {
    if a <= b then a else b
  }

  /** The dispatch loop hands out the queue's items from the head, in order,
      and leaves the rest of the queue as it was. */
  lemma {:induction false} DrainIsFifo(s: PoolState)
    ensures var d := Drain(s);
      && |d.1| <= |s.workQueue|
      && d.0.workQueue == s.workQueue[|d.1|..]
      && (forall i :: 0 <= i < |d.1| ==> d.1[i].item == s.workQueue[i])
    decreases |s.workQueue|
  {
    var m := Match(s, External);
    if m.pair.Dispatch? {
      DrainIsFifo(m.state);
      var rest := Drain(m.state);
      assert s.workQueue[1..][|rest.1|..] == s.workQueue[1 + |rest.1|..];
    }
  }

  /** The dispatch loop starts one item per usable worker: as many as the
      queue holds or the pool can take, whichever is smaller. */
  lemma {:induction false} DrainCount(s: PoolState)
    ensures |Drain(s).1| == Min(|s.workQueue|, Spare(s))
    decreases |s.workQueue|
  {
    var m := Match(s, External);
    if m.pair.Dispatch? {
      DrainCount(m.state);
      assert Spare(m.state) == Spare(s) - 1;
    }
  }

  /** After the dispatch loop matching would fail: the queue is empty, or no
      worker is idle and the pool is at capacity. */
  lemma {:induction false} DrainEnds(s: PoolState)
    ensures var t := Drain(s).0;
      && Match(t, External).pair.NoPair?
      && (t.workQueue == [] || (t.freeThreads == [] && |t.allThreads| >= t.threads))
    decreases |s.workQueue|
  {
    var m := Match(s, External);
    if m.pair.Dispatch? {
      DrainEnds(m.state);
    }
  }

  /** The dispatch loop keeps the invariant of a pool within capacity. */
  lemma {:induction false} DrainKeepsInv(s: PoolState)
    requires Wf(s) && WithinCapacity(s) && SpinIdle(s)
    ensures Inv(Drain(s).0)
    decreases |s.workQueue|
  {
    var m := Match(s, External);
    MatchKeepsWf(s, External);
    if m.pair.Dispatch? {
      DrainKeepsInv(m.state);
    } else {
      DrainEnds(s);
    }
  }

  /** SetPoolSize rejects sizes below 1 without a change; otherwise the size
      is set, the shrink disposes only idle workers, and afterwards the pool
      is settled: matching would hand out nothing more. */
  lemma ResizeKeepsInv(s: PoolState, n: int)
    requires Inv(s)
    ensures var r := Resized(s, n);
      && Inv(r.state)
      && (n < 1 ==> r.outcome == Fail(InvalidThreads) && r.state == s && r.removed == [] && r.dispatched == [])
      && (n >= 1 ==> r.outcome == Pass && r.state.threads == n && Match(r.state, External).pair.NoPair?)
      && (forall w :: w in r.removed ==> w in s.freeThreads)
      && r.state.releaseThreadsRecords == s.releaseThreadsRecords
  {
    if n >= 1 {
      var s0 := s.(threads := n);
      AdjustedKeepsWf(s0);
      AdjustNeverDisposesBusy(s0);
      var a := Adjusted(s0);
      DrainKeepsInv(a.0);
      DrainEnds(a.0);
      DrainIsFifo(a.0);
    }
  }

  /** Growing the pool while work waits starts new work at once: as many items
      as the queue holds or the new room allows, whichever is smaller, taken
      from the head of the queue in order. */
  lemma ResizeDrainsQueue(s: PoolState, n: int)
    requires Inv(s) && n >= 1 && s.workQueue != []
    ensures var r := Resized(s, n);
      && |r.dispatched| == Min(|s.workQueue|, if |s.allThreads| < n then n - |s.allThreads| else 0)
      && (forall i :: 0 <= i < |r.dispatched| ==> r.dispatched[i].item == s.workQueue[i])
  {
    var s0 := s.(threads := n);
    assert Adjusted(s0).1 == [];
    assert Adjusted(s0).0 == s0;
    DrainCount(s0);
    DrainIsFifo(s0);
  }

  /** SetPoolSize does not check for disposal: on a disposed pool it raises
      the capacity, disposes and dispatches nothing, and the raised capacity
      is then reported as available. */
  lemma ResizeAfterDispose(s: PoolState, n: int)
    requires Inv(s) && s.disposed && n >= 1
    ensures var r := Resized(s, n);
      && r.outcome == Pass && r.removed == [] && r.dispatched == []
      && r.state == s.(threads := n)
      && AvailableThreads(r.state) == n
  {
    assert Adjusted(s.(threads := n)).0 == s.(threads := n);
  }

  // ----- QueueWorkItem -----

  /** Submission faults on a disposed pool and refuses a full queue, both
      without a change; otherwise it adds the item at the tail, stops any
      countdown, and either starts the item at once or leaves it queued. */
  lemma SubmitEnqueuesAtTail(s: PoolState, item: WorkItem)
    requires Inv(s)
    ensures var r := Submitted(s, item);
      && Inv(r.state)
      && (s.disposed ==> r.result == Err(ObjectDisposed) && r.state == s)
      && (!s.disposed && |s.workQueue| == IntMax ==> r.result == Ok(false) && r.state == s)
      && (!s.disposed && |s.workQueue| != IntMax ==>
            && r.result == Ok(true)
            && !r.state.spin
            && WorkCount(r.state) == WorkCount(s) + 1
            && r.state.releaseThreadsRecords == s.releaseThreadsRecords
            && (r.pair.Dispatch? ==> s.workQueue == [] && r.pair.item == item && r.state.workQueue == [])
            && (!r.pair.Dispatch? ==> r.pair.NoPair? && r.state.workQueue == s.workQueue + [item])
            && (r.pair.Dispatch? <==> s.workQueue == [] && (s.freeThreads != [] || |s.allThreads| < s.threads)))
  {
    if !s.disposed && |s.workQueue| != IntMax {
      var s1 := s.(workQueue := s.workQueue + [item], spin := false);
      assert Wf(s1) && NearlySettled(s1);
      MatchSettles(s1, External);
    }
  }

  /** A submission cancels a pending eviction: the next countdown step stops
      without releasing anything. */
  lemma SubmitCancelsEviction(s: PoolState, item: WorkItem, deadline: Instant, now: Instant)
    requires !s.disposed && |s.workQueue| != IntMax
    ensures var t := Submitted(s, item).state;
      TickStep(t, deadline, now) == TickResult(t, Stopped)
  {
  }

  // ----- WorkComplete -----

  /** Returning a busy or borrowed worker to the idle queue keeps the roster
      consistent and puts it last in that queue; a pool with work waiting had
      no idle worker before, so it has exactly this one now. */
  lemma ReturnedKeepsWf(s: PoolState, w: int)
    requires Inv(s) && !s.disposed && w in s.allThreads && w !in s.freeThreads
    ensures var s1 := Returned(s, w);
      && Wf(s1)
      && w !in s1.workingThreads && s1.freeThreads[|s1.freeThreads| - 1] == w
      && |s1.workingThreads| == |s.workingThreads| - (if w in s.workingThreads then 1 else 0)
      && (s1.workQueue != [] ==> s1.freeThreads == [w] && |s1.allThreads| >= s1.threads)
  {
  }

  /** A completion keeps the invariant and leaves the eviction log alone; a
      disposed pool ignores it. */
  lemma WorkCompleteKeepsInv(s: PoolState, w: int, now: Instant)
    requires Inv(s) && CanComplete(s, w)
    ensures var r := WorkCompleted(s, w, now);
      && Inv(r.state)
      && r.state.releaseThreadsRecords == s.releaseThreadsRecords
      && (s.disposed ==> r.state == s && r.pair.NoPair? && r.removed == [])
  {
    if !s.disposed {
      var s1 := Returned(s, w);
      ReturnedKeepsWf(s, w);
      AdjustedKeepsWf(s1);
      var a := Adjusted(s1);
      assert NearlySettled(a.0);
      MatchSettles(a.0, PoolThread(w, now));
    }
  }

  /** The finishing worker ends up idle, disposed by the shrink, or handed the
      next job; only a pool left without work is eligible for the countdown. */
  lemma WorkCompleteFate(s: PoolState, w: int, now: Instant)
    requires !s.disposed
    ensures var r := WorkCompleted(s, w, now);
      && (w in r.state.freeThreads || w in r.removed || (!r.pair.NoPair? && r.pair.worker == w))
      && (r.pair.Borrow? ==> s.workQueue == [])
  {
    var s1 := Returned(s, w);
    var a := Adjusted(s1);
    var m := Match(a.0, PoolThread(w, now));
    if w !in a.1 {
      assert w in s1.freeThreads[|a.1|..] by {
        assert s1.freeThreads[|s1.freeThreads| - 1] == w;
      }
      assert w in a.0.freeThreads;
      if m.pair.Dispatch? || m.pair.Borrow? {
        if a.0.freeThreads != [] && a.0.freeThreads[0] != w {
          assert w in a.0.freeThreads[1..];
        }
      }
    }
  }

  /** The busy count falls by one unless the re-match hands out an item, and
      no worker disposed by the shrink is busy. */
  lemma WorkCompleteBusyCount(s: PoolState, w: int, now: Instant)
    requires Inv(s) && !s.disposed && w in s.allThreads && w !in s.freeThreads
    ensures var r := WorkCompleted(s, w, now);
      && |r.state.workingThreads| ==
           |s.workingThreads| - (if w in s.workingThreads then 1 else 0) + (if r.pair.Dispatch? then 1 else 0)
      && (forall v :: v in r.removed ==> v !in r.state.workingThreads)
  {
    var s1 := Returned(s, w);
    var a := Adjusted(s1);
    var m := Match(a.0, PoolThread(w, now));
    assert Wf(s1) && |s1.workingThreads| == |s.workingThreads| - (if w in s.workingThreads then 1 else 0) by {
      ReturnedKeepsWf(s, w);
    }
    assert a.0.workingThreads == s1.workingThreads && forall v :: v in a.1 ==> v in s1.freeThreads && v !in s1.workingThreads by {
      AdjustNeverDisposesBusy(s1);
    }
    MatchBusy(a.0, PoolThread(w, now));
    if m.pair.Dispatch? {
      assert m.pair.worker !in a.1 by {
        AdjustedKeepsWf(s1);
        if |a.0.freeThreads| > 0 {
          assert a.0.freeThreads[0] == s1.freeThreads[|a.1|];
        }
      }
    }
  }

  // ----- ReleaseThreads, Tick and Dispose -----

  /** ReleaseThreads appends exactly one record, listing the registered
      workers in order (each once), leaves the earlier records as they were
      and empties the roster and the queue. */
  lemma ReleaseLogsOneRecord(s: PoolState, now: Instant)
    requires Inv(s)
    ensures var t := Released(s, now);
      && Inv(t)
      && |t.releaseThreadsRecords| == |s.releaseThreadsRecords| + 1
      && t.releaseThreadsRecords[..|s.releaseThreadsRecords|] == s.releaseThreadsRecords
      && t.releaseThreadsRecords[|s.releaseThreadsRecords|] == ReleaseThreadsRecord(now, s.allThreads)
      && NoDup(t.releaseThreadsRecords[|s.releaseThreadsRecords|].threadIds)
      && t.allThreads == [] && t.freeThreads == [] && t.workingThreads == [] && t.workQueue == []
      && t.threads == s.threads
  {
  }

  /** One countdown step: without the spin flag nothing changes; at or after
      the deadline every worker is released in one record and the flag is
      cleared, the capacity unchanged; before it nothing changes. An eviction
      only ever finds an idle pool: nothing queued and no worker busy. */
  lemma TickStepKeepsInv(s: PoolState, deadline: Instant, now: Instant)
    requires Inv(s) && !s.disposed
    ensures var r := TickStep(s, deadline, now);
      && Inv(r.state)
      && (!s.spin ==> r == TickResult(s, Stopped))
      && (s.spin && now < deadline ==> r == TickResult(s, KeepWaiting))
      && (s.spin && now >= deadline ==>
            && r.outcome == Evicted && !r.state.spin
            && WorkCount(s) == 0
            && r.state.releaseThreadsRecords == s.releaseThreadsRecords + [ReleaseThreadsRecord(now, s.allThreads)]
            && r.state.allThreads == [] && r.state.threads == s.threads)
  {
  }

  /** A list of distinct elements, each found in b, is no longer than b. */
  lemma {:induction false} DistinctWithinIsShorter(a: seq<int>, b: seq<int>)
    requires NoDup(a) && forall x :: x in a ==> x in b
    ensures |a| <= |b|
    decreases |a|
  {
    if a != [] {
      var b1 := RemoveFirst(b, a[0]);
      forall x | x in a[1..] ensures x in b1 {
        assert x != a[0];
      }
      assert NoDup(a[1..]);
      DistinctWithinIsShorter(a[1..], b1);
    }
  }

  /** While some registered worker is not idle (the one running the
      countdown, say), matching never borrows a worker, so the deadline the
      countdown read stays the pool's release time; that worker stays
      registered and not idle. */
  lemma NoBorrowDuringCountdown(s: PoolState, b: int, c: Caller)
    requires Wf(s) && b in s.allThreads && b !in s.freeThreads
    ensures var m := Match(s, c);
      && !m.pair.Borrow?
      && m.state.releaseTime == s.releaseTime
      && b in m.state.allThreads && b !in m.state.freeThreads
  {
    DistinctWithinIsShorter(s.freeThreads, RemoveFirst(s.allThreads, b));
  }

  /** A borrow arms the countdown with the deadline now plus the keep-alive
      interval (clamped), and a countdown step against that deadline evicts
      exactly when the clock has reached it. */
  lemma CountdownDeadline(s: PoolState, w: int, t0: Instant, now: Instant)
    requires Wf(s) && Match(s, PoolThread(w, t0)).pair.Borrow?
    ensures s.keepAliveTime >= 0 && !s.disposed
    ensures var t := Match(s, PoolThread(w, t0)).state;
      && t.spin
      && t.releaseTime == ReleaseDeadline(t0, s.keepAliveTime)
      && (TickStep(t, t.releaseTime, now).outcome == Evicted <==> now >= ReleaseDeadline(t0, s.keepAliveTime))
  {
  }

  /** A submission during the countdown leaves the release time and the
      countdown worker alone. */
  lemma SubmitKeepsCountdown(s: PoolState, item: WorkItem, b: int)
    requires Wf(s) && b in s.allThreads && b !in s.freeThreads
    ensures var t := Submitted(s, item).state;
      t.releaseTime == s.releaseTime && b in t.allThreads && b !in t.freeThreads
  {
    if !s.disposed && |s.workQueue| != IntMax {
      NoBorrowDuringCountdown(s.(workQueue := s.workQueue + [item], spin := false), b, External);
    }
  }

  /** A resize during the countdown leaves the release time and the countdown
      worker alone: the shrink disposes only idle workers. */
  lemma ResizeKeepsCountdown(s: PoolState, n: int, b: int)
    requires Wf(s) && b in s.allThreads && b !in s.freeThreads
    ensures var t := Resized(s, n).state;
      t.releaseTime == s.releaseTime && b in t.allThreads && b !in t.freeThreads
  {
    if n >= 1 {
      var s0 := s.(threads := n);
      AdjustedKeepsWf(s0);
      var a := Adjusted(s0);
      assert b !in a.1 by {
        assert a.1 == s0.freeThreads[..|a.1|];
      }
      DrainKeepsCountdown(a.0, b);
    }
  }

  /** The dispatch loop keeps the countdown worker registered and not idle. */
  lemma {:induction false} DrainKeepsCountdown(s: PoolState, b: int)
    requires Wf(s) && b in s.allThreads && b !in s.freeThreads
    ensures b in Drain(s).0.allThreads && b !in Drain(s).0.freeThreads
    decreases |s.workQueue|
  {
    var m := Match(s, External);
    NoBorrowDuringCountdown(s, b, External);
    if m.pair.Dispatch? {
      MatchKeepsWf(s, External);
      DrainKeepsCountdown(m.state, b);
    }
  }

  /** Another worker's completion during the countdown leaves the release time
      and the countdown worker alone. */
  lemma WorkCompleteKeepsCountdown(s: PoolState, w: int, now: Instant, b: int)
    requires Inv(s) && !s.disposed && w in s.allThreads && w !in s.freeThreads
    requires b in s.allThreads && b !in s.freeThreads && b != w
    ensures var t := WorkCompleted(s, w, now).state;
      t.releaseTime == s.releaseTime && b in t.allThreads && b !in t.freeThreads
  {
    var s1 := Returned(s, w);
    ReturnedKeepsWf(s, w);
    AdjustedKeepsWf(s1);
    var a := Adjusted(s1);
    assert b !in s1.freeThreads;
    assert b !in a.1 by {
      assert a.1 == s1.freeThreads[..|a.1|];
    }
    assert b !in a.0.freeThreads by {
      assert a.0.freeThreads == s1.freeThreads[|a.1|..];
    }
    NoBorrowDuringCountdown(a.0, b, PoolThread(w, now));
  }

  /** Dispose keeps the invariant; the first call logs one final record of
      every registered worker, sets the capacity to zero and marks the pool
      disposed, after which no thread is available and submission faults. */
  lemma DisposeReleasesAll(s: PoolState, now: Instant)
    requires Inv(s)
    ensures var t := Disposed(s, now);
      && Inv(t)
      && t.disposed
      && (forall item :: Submitted(t, item) == SubmitResult(t, Err(ObjectDisposed), NoPair))
      && (!s.disposed ==>
            && t.threads == 0 && AvailableThreads(t) == 0 && WorkCount(t) == 0
            && t.releaseThreadsRecords == s.releaseThreadsRecords + [ReleaseThreadsRecord(now, s.allThreads)])
  {
  }

  /** Dispose is idempotent: a second call changes nothing. */
  lemma DisposeIdempotent(s: PoolState, first: Instant, second: Instant)
    ensures Disposed(Disposed(s, first), second) == Disposed(s, first)
  {
  }

  // ----- Construction -----

  /** A new pool satisfies the invariant. */
  lemma InitialInv(threads: int, now: Instant)
    requires threads >= 1
    ensures Inv(Initial(threads, now))
  {
  }
}
