/** Option and Result, the failure-carrying values the model uses in place of
    Rust's `Option` and of the program's `expect`/`panic!` aborts. */
module Wrappers {

  datatype Option<+T> = None | Some(value: T)

  datatype Result<+R, +E> = Success(value: R) | Failure(error: E)
}
