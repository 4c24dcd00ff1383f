/** Optional values: C#'s nullable references and `T?` values, and TypeScript's
    `undefined`, are all modelled by `Option`. */
module Wrappers {

  datatype Option<+T> = None | Some(value: T) {

    /** The value, or `default` when absent (the `??` operator). */
    function GetOr(default: T): T {
      match this
      case Some(v) => v
      case None => default
    }
  }
}
