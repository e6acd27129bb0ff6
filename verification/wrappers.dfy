/** Failure-carrying results for the list operations.

    The list raises three kinds of exception: `IndexError` for an index outside
    the list, `ValueError` for a zero slice step or a value that is not in the
    list, and a bare `Exception` for slice assignment, which is not supported.
    Each operation that can raise returns one of the wrappers below instead.
 */
module Wrappers {

  datatype Option<+T> = None | Some(value: T)

  /** The exceptions the list raises. */
  datatype Error =
    | IndexError    // index outside the list after negative-index resolution
    | ValueError    // zero slice step, or a searched value that is absent
    | Unsupported   // assignment to a slice

  /** A value-returning operation: its value, or the exception it raised. */
  datatype Result<+R> = Ok(value: R) | Err(error: Error)

  /** An operation that returns nothing: it passed, or it raised. */
  datatype Outcome = Pass | Fail(error: Error)
}
