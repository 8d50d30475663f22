/** The optional value used for TypeScript's optional fields (`name?: string`)
    and for operations that may fail (a URL the parser rejects). */
module Wrappers {

  datatype Option<+T> = None | Some(value: T) {

    /** The value held, or `default` when there is none. */
    function GetOr(default: T): T
    {
      match this
      case Some(v) => v
      case None => default
    }
  }
}
