/** Optional values: JavaScript's `undefined` results (a failed `find`, a missing map key,
    an absent argument value). */
module Wrappers {

  datatype Option<+T> = None | Some(value: T) {

    /** The value, or the fallback: JavaScript's `x ?? fallback`. */
    function GetOr(fallback: T): T
    {
      match this
      case Some(v) => v
      case None => fallback
    }
  }
}
