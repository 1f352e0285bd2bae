/** Small helper datatypes shared by the other modules. */
module Wrappers {

  /** A value that may be absent: a missing session cookie, an unparseable date, a failed lookup. */
  datatype Option<+T> = None | Some(value: T)
}
