/** Failure-compatible wrappers shared by the whole model.
    - Option<T>: a value that may be absent (a failed fetch, a missing element).
    - Result<R, E>: a value or the exception that escaped while computing it;
      usable with `:-`, so that the first failure propagates as a Python
      exception would.
 */
module Wrappers {

  datatype Option<+T> = None | Some(value: T) {

    /** The value, or `default` when absent (Python's `x if x else default`). */
    function GetOr(default: T): T {
      match this
      case Some(v) => v
      case None => default
    }
  }

  datatype Result<+R, +E> = Success(value: R) | Failure(error: E) {

    predicate IsFailure() {
      Failure?
    }

    function PropagateFailure<U>(): Result<U, E>
      requires Failure?
    {
      Failure(error)
    }

    function Extract(): R
      requires Success?
    {
      value
    }
  }
}

/** The Python exceptions that can escape the scraper's pure layer. Each one
    aborts the run: nothing in the scraper catches them. */
module Exceptions {

  datatype Exception =
    | AttributeError(attribute: string)  // an attribute looked up on None
    | KeyError(key: string)              // a missing tag attribute
    | ValueError(text: string)           // float(...) or int(...) of bad text
}
