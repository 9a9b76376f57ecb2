/** Optional values and the Java exceptions the collections throw, as values. */
module Wrappers {

  datatype Option<T> = None | Some(value: T)

  /** The unchecked exceptions thrown by the modelled collections. */
  datatype Exception =
    | NoSuchElement
    | IllegalState
    | IllegalArgument
    | IndexOutOfBounds
    | NullPointer

  /** The outcome of an operation that either returns a value or throws. */
  datatype Result<T> = Ok(value: T) | Err(error: Exception)
}
