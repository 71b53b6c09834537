/** Failure-carrying values shared by the whole model. */
module Wrappers {

  /** A value that may be absent: a failed `url.Parse`, a missing error. */
  datatype Option<+T> = None | Some(value: T)
}
