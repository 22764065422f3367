/** The optional value returned by searches and lookups (Rust's `Option`). */
module Wrappers {
  datatype Option<+T> = None | Some(value: T)
}
