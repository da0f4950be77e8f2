/** Kotlin nullable values (`T?`) and the elvis operator `?:`. */
module Nullable {

  /** `None` plays the role of Kotlin's `null`. */
  datatype Option<T> = None | Some(value: T) {

    /** `this ?: fallback` */
    function GetOr(fallback: T): (r: T)
      ensures Some? ==> r == value
      ensures None? ==> r == fallback
    {
      match this
      case Some(v) => v
      case None => fallback
    }

    /** `this ?: other` where `other` is itself nullable. */
    function OrElse(other: Option<T>): (r: Option<T>)
      ensures Some? ==> r == this
      ensures None? ==> r == other
    {
      if Some? then this else other
    }
  }
}
