/** Shared vocabulary: the serial line carries unsigned bytes, and a lookup that
    may return a null pointer is an Option. */
module Types {
  /** An unsigned 8-bit value (the firmware's `byte` / `unsigned char`). */
  newtype byte = b: int | 0 <= b < 0x100

  datatype Option<T> = None | Some(value: T)
}
