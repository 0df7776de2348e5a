/** The optional-value datatype used for lookups that can miss
    (JavaScript's `undefined` / `NaN` results). */
module Wrappers {

  datatype Option<+T> = None | Some(value: T) {

    /** Returns the value in Some, or the default when None. */
    function GetOr(default: T): T {
      match this
      case Some(v) => v
      case None => default
    }
  }
}
