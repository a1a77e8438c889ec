// A value that may be absent: Python's `Optional[...]`, and the outcome of a
// lookup or a parse that can come back empty.

module Wrappers {
  datatype Option<+T> = None | Some(value: T)
}
