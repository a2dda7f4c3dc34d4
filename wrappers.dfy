/** Optional values and pass/fail outcomes used by the build model. */
module Wrappers {

  /** A value that may be absent (TypeScript `undefined`). */
  datatype Option<+T> = None | Some(value: T) {
    function GetOr(default: T): T {
      match this
      case Some(v) => v
      case None => default
    }
  }

  /** The outcome of a step that either completes or throws with a message. */
  datatype Outcome<+E> = Pass | Fail(error: E)
}
