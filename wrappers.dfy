/** The optional value of a query that may find nothing (`.first()` returning None). */
module Wrappers {
  datatype Option<+T> = None | Some(value: T)
}
