/** Failure-compatible wrappers used across the model: `Option` stands for a
    Java reference that may be null, `Result` for a call that may throw. */
module Wrappers {

  /** `None` models a null reference; `Some(v)` a non-null one. */
  datatype Option<+T> = None | Some(value: T)

  /** `Failure(e)` models a call that ends by throwing `e`. */
  datatype Result<+R, +E> = Success(value: R) | Failure(error: E)
}
