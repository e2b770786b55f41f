/** The optional value used wherever the build script uses Rust's `Option`. */
module Wrappers {

  datatype Option<+T> = None | Some(value: T)
}
