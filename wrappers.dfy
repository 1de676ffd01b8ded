/** The optional value used for SQL NULL, a missing request field and an absent session. */
module Wrappers {
  datatype Option<+T> = None | Some(value: T)
}
