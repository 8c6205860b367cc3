/** Option and Result, the two failure-carrying types the model uses. */
module Wrappers {

  datatype Option<+T> = None | Some(value: T)

  /** `Result<(String, String), ()>` in the source: the error carries no data. */
  datatype Result<+T> = Ok(value: T) | Err
}
