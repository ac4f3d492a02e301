/** The pool's single-use unit of work (the nested class WorkItem). */
module WorkItems {
  import opened Basics

  /** The callback of a work item. User callbacks are opaque and stand for a
      token; the pool's own idle countdown is the callback that runs Tick on
      the borrowed worker whose id it carries. */
  datatype Callback = UserCallback(token: int) | TickCountdown(worker: int)

  class WorkItem {
    const callback: Callback
    const state: int
    var executed: bool

    constructor (callback: Callback, state: int)
      ensures this.callback == callback && this.state == state && !executed
    {
      this.callback := callback;
      this.state := state;
      executed := false;
    }

    /** Runs the callback once; a second call faults and changes nothing.
        The callback itself is opaque and is not modelled. */
    method Execute() returns (r: Outcome)
      modifies this
      ensures old(executed) ==> r == Fail(AlreadyExecuted)
      ensures !old(executed) ==> r == Pass
      ensures executed
    {
      if executed {
        return Fail(AlreadyExecuted);
      }
      executed := true;
      r := Pass;
    }
  }
}
