/** Small shared datatypes: an optional value standing in for a .NET `null`,
    and a result that carries the exception a .NET call would throw. */
module Common {

  /** `None` plays the role of a `null` reference. */
  datatype Option<+T> = None | Some(value: T)

  /** `Failure` plays the role of an exception thrown by the call. */
  datatype Result<+R, +E> = Success(value: R) | Failure(error: E)
}
