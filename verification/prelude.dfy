/** Vocabulary shared by every module of the model: bytes and optional values. */
module Prelude {

  /** One element of a Python `bytes` object. */
  type byte = x: int | 0 <= x < 256

  /** A value that may be absent, as Python's `None` marks it. */
  datatype Option<+T> = None | Some(value: T)
}
