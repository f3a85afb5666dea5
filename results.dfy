/** Failure-carrying results. The enhancer reports every failure by throwing a Java
    exception; here each exception becomes an `Error` value naming its class and
    carrying the literal message the source builds. */
module Results {

  datatype Option<T> = None | Some(value: T)

  /** The exception classes the enhancer throws. `ClassCast` is the failure of one of
      the unchecked downcasts the source applies to parse-tree nodes. */
  datatype Error =
    | IllegalArgument(message: string)
    | IllegalState(message: string)
    | ClassCast
    | UnsupportedOperation(message: string)

  datatype Result<T> = Success(value: T) | Failure(error: Error)

  /** Runs `op` on a successful value and passes a failure through unchanged. */
  function Then<T, U>(r: Result<T>, op: T -> Result<U>): Result<U>
  {
    match r
    case Success(v) => op(v)
    case Failure(e) => Failure(e)
  }
}
