/** The absence or presence of a value, as in Python's `T | None`. */
module Wrappers {
  datatype Option<+T> = None | Some(value: T)
}
