/** Small shared types: an optional value (Python's None) and a byte. */
module Prelude {

  /** A value that may be absent, as Python's `None`. */
  datatype Option<+T> = None | Some(value: T)

  /** One octet of a byte string. */
  newtype byte = x: int | 0 <= x < 256
}
