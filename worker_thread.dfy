/** The pool's worker (WorkerThread): an owned thread parked on an auto-reset
    event, with a slot for the action to run, a busy flag and a disposed flag.
    The thread itself is not modelled; its loop is split into the steps it
    takes between observable states. */
module Workers {
  import opened Basics
  import opened WorkItems

  /** What one pass through the top of the run loop does. */
  datatype WakeOutcome =
    | Exited    // the loop saw the worker disposed and ended
    | Waiting   // the event is not set: the thread stays parked
    | Started   // the event was consumed and the action is running

  class WorkerThread {
    /** The managed id of the worker's own thread. */
    const threadId: int
    /** The action to run: the Execute of the work item handed over. */
    var action: Option<WorkItem>
    var isWorking: bool
    var disposed: bool
    /** The state of the auto-reset event the thread waits on. */
    var signaled: bool
    /** Whether the pool's completion handler is subscribed to Complete. */
    var completeAttached: bool
    /** Whether the run loop has ended. */
    var exited: bool

    /** A running worker has an action and a consumed signal; a set signal
        always has an action to run; only a disposed worker leaves its loop. */
    ghost predicate Valid()
      reads this
    {
      && (isWorking ==> action.Some? && !signaled)
      && (signaled ==> action.Some?)
      && (exited ==> disposed && !isWorking)
    }

    constructor (threadId: int)
      ensures Valid()
      ensures this.threadId == threadId
      ensures action == None && !isWorking && !disposed && !signaled
      ensures !completeAttached && !exited
    {
      this.threadId := threadId;
      action := None;
      isWorking := false;
      disposed := false;
      signaled := false;
      completeAttached := false;
      exited := false;
    }

    /** Stores the action to run next; faults on a disposed or busy worker. */
    method SetWork(act: WorkItem) returns (r: Outcome)
      requires Valid()
      modifies this`action
      ensures Valid()
      ensures old(disposed) ==> r == Fail(ObjectDisposed)
      ensures !old(disposed) && isWorking ==> r == Fail(AlreadyWorking)
      ensures r == Pass <==> !disposed && !isWorking
      ensures action == if r == Pass then Some(act) else old(action)
    {
      if disposed {
        return Fail(ObjectDisposed);
      }
      if isWorking {
        return Fail(AlreadyWorking);
      }
      action := Some(act);
      r := Pass;
    }

    /** Sets the event the thread waits on; faults on a disposed or busy
        worker and on one that has no action to run. */
    method Activate() returns (r: Outcome)
      requires Valid()
      modifies this`signaled
      ensures Valid()
      ensures old(disposed) ==> r == Fail(ObjectDisposed)
      ensures !disposed && isWorking ==> r == Fail(AlreadyWorking)
      ensures !disposed && !isWorking && action == None ==> r == Fail(NoWorkSet)
      ensures r == Pass <==> !disposed && !isWorking && action.Some?
      ensures signaled == (r == Pass || old(signaled))
    {
      if disposed {
        return Fail(ObjectDisposed);
      }
      if isWorking {
        return Fail(AlreadyWorking);
      }
      if action == None {
        return Fail(NoWorkSet);
      }
      signaled := true;
      r := Pass;
    }

    /** Subscribes the pool's handler to the Complete event. */
    method SubscribeComplete()
      modifies this`completeAttached
      ensures completeAttached
    {
      completeAttached := true;
    }

    /** Unsubscribes the pool's handler from the Complete event. */
    method UnsubscribeComplete()
      modifies this`completeAttached
      ensures !completeAttached
    {
      completeAttached := false;
    }

    /** The top of the run loop for a parked thread: the loop condition, the
        wait on the event, the second disposed check and the busy flag. A
        disposed worker takes no further iteration. */
    method Wake() returns (r: WakeOutcome)
      requires Valid() && !isWorking && !exited
      modifies this`signaled, this`isWorking, this`exited
      ensures Valid()
      ensures old(disposed) ==> r == Exited && exited && !isWorking && signaled == old(signaled)
      ensures !disposed && !old(signaled) ==> r == Waiting && !exited && !isWorking && !signaled
      ensures !disposed && old(signaled) ==> r == Started && !exited && isWorking && !signaled
    {
      if disposed {
        exited := true;
        return Exited;
      }
      if !signaled {
        return Waiting;
      }
      signaled := false;
      isWorking := true;
      r := Started;
    }

    /** The finally block of one iteration, reached when the action returns or
        is aborted: the worker is idle again, its action is cleared and the
        Complete handler, if subscribed, is invoked once (a fault it raises is
        swallowed, so this step never faults). A disposed worker then leaves
        its loop, through the rethrown abort or through the loop condition. */
    method Finish() returns (handlerInvoked: bool)
      requires Valid() && isWorking
      modifies this`isWorking, this`action, this`exited
      ensures Valid()
      ensures !isWorking && action == None
      ensures handlerInvoked == completeAttached
      ensures exited == disposed
    {
      isWorking := false;
      action := None;
      handlerInvoked := completeAttached;
      exited := disposed;
    }

    /** Marks the worker disposed. The thread is aborted only when the caller
        is another thread: a worker that disposes itself unwinds normally. A
        second call does nothing. */
    method Dispose(callerThreadId: int) returns (abortRequested: bool)
      requires Valid()
      modifies this`disposed
      ensures Valid()
      ensures disposed
      ensures old(disposed) ==> !abortRequested
      ensures !old(disposed) ==> abortRequested == (callerThreadId != threadId)
    {
      if disposed {
        return false;
      }
      disposed := true;
      abortRequested := callerThreadId != threadId;
    }
  }
}
