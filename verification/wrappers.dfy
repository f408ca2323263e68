/** Failure-compatible Option and Result types used for Java's Optional and exceptions. */
module Wrappers {

  /** Java's Optional: empty or holding a value. */
  datatype Option<+T> = None | Some(value: T)

  /** A value, or the exception a Java method would throw instead. */
  datatype Result<+R, +E> = Success(value: R) | Failure(error: E) {

    predicate IsFailure() {
      Failure?
    }

    function PropagateFailure<U>(): Result<U, E>
      requires Failure?
    {
      Failure(error)
    }

    function Extract(): R
      requires Success?
    {
      value
    }
  }
}

/** Unsigned bytes, as the digest and the text renderings see them. */
module Bytes {

  /** One byte, read unsigned (Java's signed byte reinterpreted as 0..255). */
  type byte = x: int | 0 <= x < 256
}
