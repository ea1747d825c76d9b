/** Shared vocabulary: Go's `byte` and an optional value. */
module Common {

  /** An octet, as Go's `byte`. */
  type byte = b: int | 0 <= b < 0x100

  datatype Option<+T> = None | Some(value: T)
}
