/** Option and Result, the two failure-compatible wrappers the model uses:
    Option stands for a cell that may hold pandas' missing marker (NaN),
    Result for an operation that can raise. */
module Wrappers {

  datatype Option<+T> = None | Some(value: T)

  datatype Result<+T, +E> = Ok(value: T) | Err(error: E)
}
