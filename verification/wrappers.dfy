/** Failure-compatible wrappers used across the ledger model: `Option` stands
    for an SQL value that may be NULL, `Result` for a Python call that may
    raise. */
module Wrappers {

  datatype Option<+T> = None | Some(value: T)

  datatype Result<+R, +E> = Success(value: R) | Failure(error: E)
}
