/** Option, Result and Outcome values used where the modelled Java code returns
    null or throws an exception. */
module Wrappers {

  datatype Option<+T> = None | Some(value: T)

  datatype Result<+T, +E> = Ok(value: T) | Err(error: E)

  datatype Outcome<+E> = Pass | Fail(error: E)

  /** The Java exceptions that the modelled code throws. */
  datatype Exception =
    | IllegalState(message: string)
    | UnsupportedOperation
    | NullPointer
    | IndexOutOfBounds
    | ClassNotFound(name: string)
}
