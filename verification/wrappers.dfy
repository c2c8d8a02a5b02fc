/** Optional values, for the places where the program uses Rust's `Option`. */
module Wrappers {

  datatype Option<+T> = None | Some(value: T)
}
