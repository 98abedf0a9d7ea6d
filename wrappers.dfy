/** Rust's `Option`, used for the buffer's path and the prompt's result. */
module Wrappers {
  datatype Option<+T> = None | Some(value: T)
}
