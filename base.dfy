/** Failure-compatible wrappers shared by every module of the model. */
module Base {

  /** Python's `None`-or-value. */
  datatype Option<+T> = None | Some(value: T)

  /** A value or a raised exception. */
  datatype Result<+T, +E> = Success(value: T) | Failure(error: E)

  /** The Python exceptions the modelled code raises on purpose, with their messages. */
  datatype Exception =
    | ValueError(message: string)
    | FileNotFoundError(message: string)
    | KeyError(key: string)
    | RuntimeError(message: string)
    | OSError(message: string)
    | StopIteration
}
