/** An optional value: the model of a JavaScript property that may be absent. */
module Wrappers {

  datatype Option<+T> = None | Some(value: T) {

    /** The value held, or `default` when there is none. */
    function GetOr(default: T): (r: T)
      ensures Some? ==> r == value
      ensures None? ==> r == default
    {
      match this
      case Some(v) => v
      case None => default
    }
  }
}
