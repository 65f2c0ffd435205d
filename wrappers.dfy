/** The optional-value datatype used for JavaScript's `undefined` fields and
    for `Array.prototype.find`, which returns `undefined` when nothing matches. */
module Wrappers {

  datatype Option<+T> = None | Some(value: T) {

    /** The value, or `default` when there is none (JavaScript's `x !== undefined ? x : d`). */
    function GetOr(default: T): T {
      match this
      case Some(v) => v
      case None => default
    }
  }
}
