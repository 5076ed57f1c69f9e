/** The optional result used for operations that raise in Python. */
module Wrappers {

  /** `None` stands for a Python exception (OverflowError, UnicodeDecodeError,
      IndexError, ...), `Some(v)` for a normal return of `v`. */
  datatype Option<+T> = None | Some(value: T)
}
