/** Failure-carrying wrappers shared by the rest of the model. */
module Wrappers {

  /** A value that may be missing; `None` also stands for "the Python call raised". */
  datatype Option<+T> = None | Some(value: T)

  /** A value or the error that replaced it. */
  datatype Result<+T, +E> = Ok(value: T) | Err(error: E)
}
