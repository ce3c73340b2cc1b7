/** Optional values: the model's stand-in for TypeScript's optional fields
    (`field?: T`) and for `undefined`. */
module Wrappers {

  datatype Option<+T> = None | Some(value: T) {

    /** The value if present, otherwise `default` (the `??` / `||` idiom). */
    function GetOr(default: T): T {
      match this
      case Some(v) => v
      case None => default
    }

    /** A present value as a one-element sequence, an absent one as `[]`;
        used for "invoke the callback if it is set" (`cb?.()`). */
    function ToSeq(): (s: seq<T>)
      ensures |s| == (if Some? then 1 else 0)
      ensures Some? ==> s[0] == value
    {
      match this
      case Some(v) => [v]
      case None => []
    }
  }
}
