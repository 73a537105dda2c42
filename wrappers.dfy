/** Option and pass/fail outcomes used across the model. */
module Wrappers {

  datatype Option<+T> = None | Some(value: T) {
    /** The wrapped value, or `default` when there is none (PHP's `??`). */
    function GetOr(default: T): T {
      match this
      case Some(v) => v
      case None => default
    }
  }

  /** The two configuration errors the manager throws as `DmException`. */
  datatype DmError = MissingCuid | MissingBotId

  datatype Outcome = Pass | Fail(error: DmError)
}
