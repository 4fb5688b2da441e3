/** The failure-carrying wrappers the decoder returns. */
module Wrappers {

  /** A value that may be absent: the Java readers' null results and thrown reads. */
  datatype Option<+T> = None | Some(value: T)

  /** The outcome of a decode: a record, or the reason no record was built. */
  datatype Result<+R, +E> = Success(value: R) | Failure(error: E)
}
