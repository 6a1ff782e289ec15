/** Optional values and results shared by the whole model.

    `Option.Or` is Swift's `??` when the right operand is itself optional,
    `Option.GetOr` is `??` when the right operand is a plain value.
 */
module Base {

  datatype Option<+T> = None | Some(value: T) {

    /** `self ?? other` where `other` is optional: the first defined value, if any. */
    function Or(other: Option<T>): Option<T> {
      if Some? then this else other
    }

    /** `self ?? default` where `default` is a plain value. */
    function GetOr(default: T): T {
      match this
      case Some(v) => v
      case None => default
    }

    /** The value, if any, as a sequence of at most one element. */
    function ToSeq(): seq<T> {
      if Some? then [value] else []
    }
  }

  lemma ConcatAssociative<T>(x: seq<T>, y: seq<T>, z: seq<T>)
    ensures (x + y) + z == x + (y + z)
  {
  }

  /** A value, or the error a Swift `throw` (or trap) would have produced. */
  datatype Result<+T, +E> = Success(value: T) | Failure(error: E)
}
