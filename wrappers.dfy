/** Small helper datatypes shared by the other modules. */
module Wrappers {

  /** A value that may be absent (Python's `None`). */
  datatype Option<+T> = None | Some(value: T)

  /** Byte strings: a Python `str` is handled through its UTF-8 encoding. */
  newtype byte = x: int | 0 <= x < 256
}
