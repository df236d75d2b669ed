/** The Option datatype used for lookups that may find nothing (a NULL pointer in C). */
module Wrappers {

  datatype Option<+T> = None | Some(value: T)
}
