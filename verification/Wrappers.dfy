/** Failure-compatible result types shared by the whole model. */
module Wrappers {
  datatype Option<+T> = None | Some(value: T)

  /** The outcome of an operation whose only failure is one opaque error. */
  datatype Result<+T> = Failure | Success(value: T)

  /** The outcome of code that can also panic, in which case it never returns. */
  datatype Outcome<+T> = Done(value: T) | Error | Panic {
    predicate IsFailure() { !Done? }

    function PropagateFailure<U>(): Outcome<U>
      requires IsFailure()
    {
      if Error? then Error else Panic
    }

    function Extract(): T
      requires Done?
    {
      value
    }
  }
}
