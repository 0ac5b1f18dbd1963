/** Results of operations that may throw, as the string and number routines of the parsers do. */
module Outcomes {

  datatype Option<+T> = None | Some(value: T)

  /** What can go wrong inside a parser: the two exceptions its library calls throw, and the loop
      that never exits when a complete message is handed more data. */
  datatype Error = OutOfRange | InvalidArgument | NeverReturns

  datatype Result<+T> = Success(value: T) | Failure(error: Error) {

    predicate IsFailure() {
      Failure?
    }

    function PropagateFailure<U>(): Result<U>
      requires Failure?
    {
      Failure(error)
    }

    function Extract(): T
      requires Success?
    {
      value
    }
  }
}
