/** Option and Result types shared by the model, and the Python exceptions the
    modelled code can raise (without their payloads). */
module Wrappers {

  datatype Option<+T> = None | Some(value: T)

  /** The exceptions the modelled Python code raises on malformed input. */
  datatype Exception = KeyError | IndexError | ValueError | TypeError

  /** A value, or the exception that the Python code would raise instead. */
  datatype Result<+T> = Success(value: T) | Failure(error: Exception)
}
