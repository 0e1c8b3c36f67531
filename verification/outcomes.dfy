/** Failure-carrying result types shared by every module of the model: the
    engine's `Result<_, &'static str>` and the lobby's `Result<_, *Error>`
    returns, and Rust's `Option`. */
module Outcomes {

  datatype Option<+T> = None | Some(value: T)

  datatype Result<+T, +E> = Ok(value: T) | Err(error: E)
}
