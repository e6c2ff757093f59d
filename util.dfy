/** Small wrappers shared by the model: an optional value and a result whose
    error carries no payload (the diagnostic has already been recorded). */
module Util {

  datatype Option<+T> = None | Some(value: T)

  /** The source's `Result<T, ()>`: success with a value, or a bare failure. */
  datatype Result<+T> = Ok(value: T) | Err
}
