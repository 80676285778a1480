/** Failure-carrying values shared by every component of the model. */
module Wrappers {

  /** An absent value: Python's `None`, a missing dictionary entry, a JavaScript `undefined`. */
  datatype Option<+T> = None | Some(value: T) {
    predicate IsFailure() {
      None?
    }

    function PropagateFailure<U>(): Option<U>
      requires None?
    {
      None
    }

    function Extract(): T
      requires Some?
    {
      value
    }

    function GetOr(default: T): T {
      match this
      case Some(v) => v
      case None => default
    }
  }

  /** A value or the reason it could not be produced (an exception in the source). */
  datatype Result<+R, +E> = Success(value: R) | Failure(error: E) {
    predicate IsFailure() {
      Failure?
    }

    function PropagateFailure<U>(): Result<U, E>
      requires Failure?
    {
      Failure(error)
    }

    function Extract(): R
      requires Success?
    {
      value
    }
  }
}

/**
  The run-wide abort flag, seen from one sequential computation.

  The source keeps a global boolean that any job (or the user) may raise and that
  is never lowered during a run. A computation only observes it at its polls,
  numbered 0, 1, 2, ... in the order the code checks the flag; `From(k)` says the
  flag is seen raised at poll `k` and at every later poll.
*/
module Cancellation {

  datatype Abort = Never | From(poll: nat)

  /** Is the flag seen raised at poll `k`? */
  predicate SeenAt(a: Abort, k: nat) {
    a.From? && a.poll <= k
  }
}
