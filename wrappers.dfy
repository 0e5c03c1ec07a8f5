/** The optional value used where the Python code returns `None` or may fail. */
module Wrappers {
  datatype Option<+T> = None | Some(value: T)
}
