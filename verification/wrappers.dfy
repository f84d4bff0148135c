/** The optional value used for lookups that may find nothing, as Rust's `Option<T>`. */
module Wrappers {

  datatype Option<+T> = None | Some(value: T)
}
