// Exceptions thrown by the modelled JDK classes, and the result type used
// wherever a Java method either returns a value or throws.
module Outcomes {

  datatype JavaException =
    | IndexOutOfBounds
    | NoSuchElement
    | IllegalState
    | ConcurrentModification
    | IllegalArgument
    | IllegalMonitorState
    | NullPointer
    | BufferUnderflow
    | BufferOverflow
    | ReadOnlyBuffer
    | IOError
    | Cancellation
    | Execution
    | ArrayIndexOutOfBounds
    /** `java.lang.Error`, thrown for an overflowing permit count. */
    | CountExceeded

  datatype Result<T> = Ok(value: T) | Err(error: JavaException)

  /** A Java reference that may be `null`. */
  datatype Option<T> = None | Some(value: T)

  /** A `void` Java method: it either returns normally or throws. */
  datatype Status = Done | Thrown(error: JavaException)
}
