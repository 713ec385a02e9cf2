/** The optional value used where the source returns `npos`, a null pointer or "not found". */
module Wrappers {

  datatype Option<+T> = None | Some(value: T)

  /** One byte of a file's contents. */
  newtype byte = x: int | 0 <= x < 256
}
