/** The optional value the launcher code expresses with `null`, `undefined`
    and a caught exception: a directory read that failed, a query parameter
    that is absent, a player path that is not set. */
module Wrappers {

  datatype Option<+T> = None | Some(value: T) {

    /** The encapsulated value, or `default` when there is none (`x ?? d`). */
    function GetOr(default: T): (r: T)
      ensures Some? ==> r == value
      ensures None? ==> r == default
    {
      match this
      case Some(v) => v
      case None => default
    }
  }
}
