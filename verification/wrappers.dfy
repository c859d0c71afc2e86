/** The optional-value datatype used for SQL lookups and the session's user. */
module Wrappers {

  /** A value that may be absent; `None` plays the role of Python's `None`. */
  datatype Option<+T> = None | Some(value: T)
}
