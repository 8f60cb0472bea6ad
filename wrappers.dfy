/** Failure-compatible wrappers used by every other module: `Option` stands for a
    Python `None`-able value or a TypeScript `undefined`-able one, `Result` for an
    operation that raises or throws on its error path. */
module Wrappers {

  datatype Option<+T> = None | Some(value: T) {
    /** Returns the wrapped value, or `default` for `None`. */
    function GetOr(default: T): T {
      match this
      case Some(v) => v
      case None => default
    }
  }

  datatype Result<+T, +E> = Ok(value: T) | Err(error: E)
}
