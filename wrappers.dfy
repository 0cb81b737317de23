/** Small wrapper datatypes shared by the modules of the model. */
module Wrappers {

  /** A value that may be absent: a Python attribute that `getattr` may not find. */
  datatype Option<+T> = None | Some(value: T) {
    /** The value, or `default` when absent (Python's `getattr(obj, name, default)`). */
    function GetOr(default: T): T {
      match this
      case Some(v) => v
      case None => default
    }
  }

  /** Success, or failure carrying an error value (an exception that aborts the build). */
  datatype Outcome<+E> = Pass | Fail(error: E)
}
