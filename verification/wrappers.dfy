/** An optional value, shared by the other modules. */
module Wrappers {

  /** A value that may be missing: the outcome of a partial conversion. */
  datatype Option<+T> = None | Some(value: T)
}
