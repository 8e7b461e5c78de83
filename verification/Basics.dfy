/** What both halves of the project use: bytes and optional values. */
module Basics {
  type byte = b: int | 0 <= b < 256

  datatype Option<+T> = None | Some(value: T)
}
