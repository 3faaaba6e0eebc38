/** The optional value used where the reader returns `None` or nothing. */
module Wrappers {
  datatype Option<+T> = None | Some(value: T)
}
