/** Failure-compatible wrappers shared by every stage of the pipeline. */
module Wrappers {

  /** Python's `None` or a present value. */
  datatype Option<+T> = None | Some(value: T) {
    /** `d.get(k, default)` style access. */
    function GetOr(default: T): T {
      if Some? then value else default
    }
  }

  /** A stage either produces a value or raises; `error` names the raised condition. */
  datatype Result<+T, +E> = Success(value: T) | Failure(error: E)
}
