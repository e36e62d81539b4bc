/** The optional value used wherever the source returns `undefined` or takes an optional argument. */
module Wrappers {
  datatype Option<+T> = None | Some(value: T) {
    function GetOr(default: T): T {
      match this
      case Some(v) => v
      case None => default
    }

    /** The value as a sequence of zero or one elements (how an optional result is pushed). */
    function ToSeq(): (s: seq<T>)
      ensures None? ==> s == []
      ensures Some? ==> s == [value]
    {
      match this
      case Some(v) => [v]
      case None => []
    }
  }
}
