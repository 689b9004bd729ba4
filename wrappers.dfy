/** Option and Result, the stand-ins for Java's null and for thrown exceptions. */
module Wrappers {

  /** `None` plays the part of a Java `null` reference. */
  datatype Option<+T> = None | Some(value: T)

  /** `Failure(e)` plays the part of a thrown exception `e`. */
  datatype Result<+R, +E> = Success(value: R) | Failure(error: E)
}
