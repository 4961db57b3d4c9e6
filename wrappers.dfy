/** Failure-compatible results shared by the puzzle modules. */
module Wrappers {

  /** A value that may be missing: a parse that raised, an index out of range. */
  datatype Option<+T> = None | Some(value: T)
}
