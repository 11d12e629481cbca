/** The optional value used by the model (Rust's `Option`). */
module Wrappers {
  datatype Option<+T> = None | Some(value: T)
}
