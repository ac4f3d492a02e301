/** Values shared by the whole model: optional values and the exceptions the
    thread pool raises, modelled as values. */
module Basics {

  /** Stands for a reference that may be null. */
  datatype Option<+T> = None | Some(value: T)

  /** One constructor per exception the core throws. */
  datatype Fault =
    | InvalidThreads    // ArgumentException: a pool size below 1
    | ObjectDisposed    // ObjectDisposedException: the pool or the worker is disposed
    | AlreadyWorking    // a worker given work, or activated, while it runs an item
    | NoWorkSet         // a worker activated with no action stored
    | AlreadyExecuted   // a work item executed a second time

  /** The outcome of an operation that returns nothing but may throw. */
  datatype Outcome = Pass | Fail(fault: Fault)

  /** The outcome of an operation that returns a value or throws. */
  datatype Result<+T> = Ok(value: T) | Err(fault: Fault)
}
