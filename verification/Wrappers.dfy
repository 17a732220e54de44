/** The optional value, the Rust source's `Option`. */
module Wrappers {
  datatype Option<+T> = None | Some(value: T)
}
