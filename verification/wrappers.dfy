/** Helper datatypes shared by the other modules. */
module Wrappers {

  /** A value that may be absent: the result of parsing a year, or of a search that may find nothing. */
  datatype Option<+T> = None | Some(value: T)
}
