/**
 * Option and Result, for the operations of the library that can fail:
 * `None` stands for a panic the source raises on purpose (an `unwrap` of an
 * error or an explicit `panic!`), `Failure` for a returned error value.
 */
module Wrappers {

  datatype Option<+T> = None | Some(value: T)

  datatype Result<+R, +E> = Success(value: R) | Failure(error: E)
}
