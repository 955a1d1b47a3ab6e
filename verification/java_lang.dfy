/**
  Java's `null` and exceptions, as values.

  A reference that may be `null` becomes an `Option`; an operation that may
  throw returns a `Result`, whose `Thrown` case names the exception class.
 */
module JavaLang {

  /** A possibly-null reference. */
  datatype Option<+T> = None | Some(value: T)

  /** The exceptions the modelled code can raise. */
  datatype Exception =
    | BufferUnderflow      // java.nio.BufferUnderflowException
    | IllegalArgument      // java.lang.IllegalArgumentException
    | NegativeArraySize    // java.lang.NegativeArraySizeException
    | NullPointer          // java.lang.NullPointerException
    | ClassCast            // java.lang.ClassCastException
    | IndexOutOfBounds     // java.lang.ArrayIndexOutOfBoundsException

  /** Either the value a call returns or the exception it throws. */
  datatype Result<+T> = Ok(value: T) | Thrown(ex: Exception)
}
