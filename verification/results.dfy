/** Failure-compatible result type standing in for the exceptions the codec throws. */
module Results {

  /** The .NET exception a failing operation would raise. */
  datatype Error =
    | ArgumentError      // ArgumentException / ArgumentOutOfRangeException
    | ArithmeticError    // ArithmeticException (inverse of zero)
    | IndexOutOfRange    // IndexOutOfRangeException from a table look-up
    | DivideByZero       // DivideByZeroException
    | Overflow           // OverflowException (array of negative length)

  datatype Result<+T> = Success(value: T) | Failure(error: Error) {

    predicate IsFailure() {
      Failure?
    }

    function PropagateFailure<U>(): Result<U>
      requires Failure?
    {
      Failure(error)
    }

    function Extract(): T
      requires Success?
    {
      value
    }
  }

  /** A value or nothing, standing in for a null reference or a false result. */
  datatype Option<+T> = None | Some(value: T)
}
