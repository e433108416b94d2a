/** Outcomes of operations that the Java code can abort with an unchecked exception. */
module Results {

  /** The runtime exceptions the modelled Java code can raise. */
  datatype Error =
    | IndexOutOfBounds   // java.lang.ArrayIndexOutOfBoundsException
    | DivisionByZero     // java.lang.ArithmeticException: / by zero

  datatype Result<+T> = Success(value: T) | Failure(error: Error)
}
