/** Failure-compatible wrappers and the exception kinds the Java code throws. */
module Wrappers {

  /** `null` or a value. */
  datatype Option<+T> = None | Some(value: T)

  /** A value, or the exception that aborted the computation. */
  datatype Result<+T> = Ok(value: T) | Err(error: Error) {

    predicate IsFailure() {
      Err?
    }

    function PropagateFailure<U>(): Result<U>
      requires Err?
    {
      Err(error)
    }

    function Extract(): T
      requires Ok?
    {
      value
    }
  }

  /** The Java exception classes the modelled code raises; messages are not modelled. */
  datatype Error =
    | IllegalArgument       // IllegalArgumentException
    | IndexOutOfBounds      // ArrayIndexOutOfBounds- / StringIndexOutOfBoundsException
    | RuntimeFailure        // RuntimeException
    | UnsupportedOperation  // UnsupportedOperationException
    | UnexpectedState       // java.rmi.UnexpectedException
    | IllegalState          // IllegalStateException (Guava checkState)
}
