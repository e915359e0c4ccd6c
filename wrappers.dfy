/** Option and Result types standing for the source's `null` returns and thrown exceptions. */
module Wrappers {

  datatype Option<+T> = None | Some(value: T)

  /** The exceptions the leaderboard code throws, by kind. */
  datatype Error =
    | ArgumentOutOfRange   // System.ArgumentOutOfRangeException
    | InvalidArgument      // System.ArgumentException
    | NodeNotFound         // InvalidOperationException("Node not found ...")

  datatype Result<+T> = Ok(value: T) | Err(error: Error)
}
