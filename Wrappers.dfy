/** Small value wrappers shared by the modules of this model. */
module Wrappers {

  /** A value that may be absent: stands for JavaScript's `undefined`/`null`
      results and for Python lookups that can fail. */
  datatype Option<+T> = None | Some(value: T) {

    /** The wrapped value, or `default` when there is none. */
    function GetOr(default: T): (r: T)
      ensures Some? ==> r == value
      ensures None? ==> r == default
    {
      match this
      case Some(v) => v
      case None => default
    }
  }
}
