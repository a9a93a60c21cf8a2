/** Failure-carrying values shared by the parsers and the pipeline. */
module Wrappers {

  /** A value that may be absent: the result of a parse that can fail. */
  datatype Option<+T> = None | Some(value: T)
}
