/** Option and Result, the two failure-carrying shapes used across the model. */
module Wrappers {

  /** `None` stands for JavaScript's `undefined` (an absent key or argument). */
  datatype Option<+T> = None | Some(value: T) {
    function GetOr(default: T): T {
      match this
      case Some(v) => v
      case None => default
    }
  }

  datatype Result<+R, +E> = Ok(value: R) | Err(error: E)
}
