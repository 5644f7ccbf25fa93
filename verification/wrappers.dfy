/** Failure-carrying values used in place of Python's None returns and exceptions. */
module Wrappers {

  /** A value that may be absent (Python's `None`). */
  datatype Option<+T> = None | Some(value: T)

  /** A computation that either produced a value or raised. */
  datatype Result<+T, +E> = Success(value: T) | Failure(error: E)

  /** A Python exception as far as the scripts observe it: its class name, as
      printed by `type(e)`, and its message, as printed by `str(e)`. */
  datatype PyError = PyError(className: string, message: string)

  /** The exception Python raises when a list is indexed past its end. */
  const ListIndexOutOfRange := PyError("IndexError", "list index out of range")
}
