/** The optional value that the cell stores and hands back (Rust's `Option<T>`). */
module Wrappers {

  datatype Option<+T> = None | Some(value: T)
}
