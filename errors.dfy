/**
 * The exception classes of the library as one error kind, and the shapes
 * in which the handle's operations report success or failure.
 *
 * RwFileException is the common base (an IOException carrying a message);
 * each subclass only fixes the message, so the model keeps the kind and
 * drops the text.
 */
module Errors {

  datatype RwError =
    | ConstructError   // RwFileConstructException: open() called with a null argument
    | CreateError      // RwFileCreateException: the file or its directories could not be made
    | UnsupportedMode  // UnsupportedRwModeException: stream not enabled, or both 'w' and 'a'
    | StreamClosed     // IOException of java.io after close(): "Stream closed"
    | NegativeArraySize  // NegativeArraySizeException of Arrays.copyOf on an empty split

  /** Outcome of an operation that returns nothing (a Java `void` that may throw). */
  datatype Status = Done | Failed(error: RwError)

  /** Outcome of an operation that returns a value or throws. */
  datatype Result<T> = Ok(value: T) | Err(error: RwError)

  /** Java's null, for arguments and results that may be absent. */
  datatype Option<T> = None | Some(value: T)
}
