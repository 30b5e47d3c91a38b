/** Results of operations that may throw in the C++ code. */
module Wrappers {

  datatype Option<+T> = None | Some(value: T)

  /** The exception classes of the source, and `std::out_of_range` for a failed `at`. */
  datatype Error =
    | InvalidParameter
    | Protocol
    | OutOfRange
    | BadOptional
    | RuntimeError

  datatype Result<+T> = Ok(value: T) | Err(error: Error) {
    predicate IsFailure() { Err? }

    function PropagateFailure<U>(): Result<U>
      requires Err?
    {
      Err(error)
    }

    function Extract(): T
      requires Ok?
    {
      value
    }
  }
}
