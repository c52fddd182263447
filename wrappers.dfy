/** Failure-carrying values: the `Option` and `Result` of the program's
    library calls, and the panics (`expect`, `unwrap`) of its main routine. */
module Wrappers {

  datatype Option<+T> = None | Some(value: T)

  datatype Result<+T, +E> = Ok(value: T) | Err(error: E)
}
