/** The optional value used for "no counterpart" entries and for iterator results. */
module Wrappers {

  datatype Option<+T> = None | Some(value: T)
}
