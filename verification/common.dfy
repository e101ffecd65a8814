/** Byte strings and the small wrappers shared by every module of the model. */
module Common {

  /** One octet, as Go's `byte`. */
  type Byte = x: int | 0 <= x < 256

  /** A Go `[]byte`. The model does not distinguish a nil slice from an empty one. */
  type Bytes = seq<Byte>

  datatype Option<+T> = None | Some(value: T) {
    function GetOr(default: T): T {
      match this
      case Some(v) => v
      case None => default
    }
  }

  /** The value-or-error pair every fallible Go function here returns. */
  datatype Result<+T, +E> = Ok(value: T) | Err(error: E)
}
