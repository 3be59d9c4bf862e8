/** Failure reasons of the parser (src/errors.hpp) and the result wrappers that carry them. */
module Errors {
  /** Why parsing or decoding gave up. The first three are the `Errors::Reason` values;
      `ExpiredData` stands for the `std::runtime_error` thrown when a view's buffer has been released. */
  datatype Error =
    | InvalidHeader
    | UnsupportedVersion
    | OutOfBoundsAccess
    | ExpiredData

  /** A value, or the error that was thrown instead of producing it. */
  datatype Result<+T> = Ok(value: T) | Err(error: Error) {
    predicate IsFailure() { Err? }
    function PropagateFailure<U>(): Result<U>
      requires Err?
    {
      Err(error)
    }
    function Extract(): T
      requires Ok?
    {
      value
    }
  }

  /** Pass, or the error that was thrown (for checks that return nothing). */
  datatype Outcome = Pass | Fail(error: Error) {
    predicate IsFailure() { Fail? }
    function PropagateFailure<U>(): Result<U>
      requires Fail?
    {
      Err(error)
    }
  }

  datatype Option<+T> = None | Some(value: T)
}
