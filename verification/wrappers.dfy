/** Failure-carrying results used by the host and device models.

    The C programs report a failed check by calling `exit(EXIT_FAILURE)` and a
    chunk loop that stops making progress simply spins; both are represented
    here as explicit values so that the model can state when they happen. */
module Wrappers {

  datatype Option<+T> = None | Some(value: T)

  datatype Result<+R, +E> = Success(value: R) | Failure(error: E) {
    predicate IsFailure() {
      Failure?
    }

    function PropagateFailure<U>(): Result<U, E>
      requires Failure?
    {
      Failure(error)
    }

    function Extract(): R
      requires Success?
    {
      value
    }
  }

  datatype Outcome<+E> = Pass | Fail(error: E)
}
