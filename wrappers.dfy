/** Rust's `Option` and `Result`, as the core uses them. */
module Wrappers {

  datatype Option<+T> = None | Some(value: T)

  /** `Ok` carries a converted value, `Err` the conversion's error. */
  datatype Result<+R, +E> = Ok(value: R) | Err(error: E)
}
