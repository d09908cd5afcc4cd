/** Failure-compatible wrapper shared by the other modules. */
module Wrappers {

  /** A value that may be absent; `None` also stands for "the call raised". */
  datatype Option<+T> = None | Some(value: T)
}
