/** Value types shared by every part of the model. */
module Base {

  /** Rust's `Option<T>`. */
  datatype Option<+T> = None | Some(value: T) {

    /** `unwrap_or(default)`. */
    function GetOr(default: T): T {
      match this
      case Some(v) => v
      case None => default
    }
  }

  const MaxI32: int := 0x7FFF_FFFF

  /** The `i32` of the `id` columns and of the request id lists. */
  type I32 = x: int | -0x8000_0000 <= x <= 0x7FFF_FFFF
}
