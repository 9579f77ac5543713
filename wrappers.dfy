/** Option and exception-aware results shared by every module of the model. */
module Wrappers {

  /** A Python value that may be `None`. */
  datatype Option<T> = None | Some(value: T)

  /** The Python exceptions the modelled code can raise on some input. */
  datatype PyError =
    | AssertionError   // an `assert` statement failed
    | IndexError       // a list was indexed out of range
    | OverflowError    // `int.to_bytes` was given a value that does not fit
    | TypeError        // an operation was applied to `None`
    | ValueError       // `range`/`randrange` was given an empty range or a zero step

  /** The outcome of a Python call: a value, or the exception it raised. */
  datatype Result<T> = Ok(value: T) | Raised(error: PyError)
  {
    predicate IsFailure() { Raised? }
    function PropagateFailure<U>(): Result<U> requires Raised? { Raised(error) }
    function Extract(): T requires Ok? { value }
  }
}
