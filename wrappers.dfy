/** Optional values: `None` stands for a JavaScript `undefined` (an omitted
    argument, an absent object property, a `null` query answer). */
module Wrappers {

  datatype Option<+T> = None | Some(value: T) {

    /** The value held, or `default` when there is none (a defaulted parameter). */
    function GetOr(default: T): T
    {
      match this
      case Some(v) => v
      case None => default
    }
  }
}
