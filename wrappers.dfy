/** Rust's `Option<T>`, used for the one-character lookahead and for optional scanner output. */
module Wrappers {
  datatype Option<+T> = None | Some(value: T)
}
