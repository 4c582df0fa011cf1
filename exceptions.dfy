/** The Java exceptions the modelled classes throw, and the values that carry them. */
module Exceptions {

  /** The unchecked exceptions thrown by the grid and the deque. */
  datatype Exception = IndexOutOfBounds | NullPointer | NoSuchElement

  /** A Java reference that may be null: `None` stands for `null`. */
  datatype Option<T> = None | Some(value: T)

  /** The outcome of a call that returns a value or throws. */
  datatype Result<T> = Success(value: T) | Failure(error: Exception)

  /** The outcome of a `void` call that returns normally or throws. */
  datatype Outcome = Pass | Fail(error: Exception)
}
