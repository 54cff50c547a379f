/** Nullable values and operations that can fail. */
module Wrappers {

  /** `None` stands for TypeScript's `null`, and for an optional argument that was left out. */
  datatype Option<+T> = None | Some(value: T) {

    /** The value, or `default` when there is none: TypeScript's `x ?? default`. */
    function GetOr(default: T): T {
      if Some? then value else default
    }
  }

  /** The outcome of an operation that either produces a value or fails with an error. */
  datatype Result<+T, +E> = Success(value: T) | Failure(error: E)
}
