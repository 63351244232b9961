/** Failure-compatible wrappers used in place of C# `null` and thrown exceptions. */
module Wrappers {

  /** `None` stands for a C# `null` reference, `Some(v)` for a non-null one. */
  datatype Option<+T> = None | Some(value: T)

  /** The outcome of a call that either returns a value or throws. */
  datatype Result<+T, +E> = Ok(value: T) | Err(error: E)
}
