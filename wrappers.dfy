/** The one failure-compatible wrapper the model needs. */
module Wrappers {

  /** A value that may be absent: a missing cell, a reply that did not parse. */
  datatype Option<+T> = None | Some(value: T)
}
