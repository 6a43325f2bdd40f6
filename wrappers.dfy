/** Nullable values and error returns, as the TypeScript code expresses them with
    `T | null` and thrown errors. */
module Wrappers {

  /** A value that may be absent: SQL NULL, a `null` in TypeScript, a missing map key. */
  datatype Option<+T> = None | Some(value: T) {
    /** The value, or `default` when absent (TypeScript's `??`, SQL's COALESCE). */
    function GetOr(default: T): T {
      match this
      case Some(v) => v
      case None => default
    }
  }

  /** The outcome of an operation that may throw: its value, or the error it throws. */
  datatype Result<+R, +E> = Ok(value: R) | Err(error: E)
}
