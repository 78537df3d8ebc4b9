/** The optional value used wherever the program uses `None` or a missing match. */
module Wrappers {
  datatype Option<+T> = None | Some(value: T)
}
