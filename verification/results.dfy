/** Failure-carrying return values used where the Java code returns null or throws. */
module Results {

  /** A value that may be absent (Java `null`). */
  datatype Option<+T> = None | Some(value: T)

  /** The exceptions the modelled Java code can raise. */
  datatype JavaException = StringIndexOutOfBounds | ArrayIndexOutOfBounds

  /** Either a value or the exception that the Java code would throw instead. */
  datatype Result<+R> = Success(value: R) | Failure(error: JavaException)
}
