/// Values shared by every module of the model: JavaScript's `null`/`undefined`
/// as an Option, and bytes as bounded integers.
module Common {

  /** A value that may be missing (`null` or `undefined` in the source). */
  datatype Option<+T> = None | Some(value: T) {

    /** The nullish-coalescing operator `this ?? default`. */
    function GetOr(default: T): (r: T)
      ensures Some? ==> r == value
      ensures None? ==> r == default
    {
      match this
      case Some(v) => v
      case None => default
    }
  }

  /** One octet of a byte buffer. */
  type Byte = x: int | 0 <= x < 256
}
