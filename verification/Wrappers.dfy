/** Results of operations that raise in the source. The source raises ValueError (or a relative of
    it) for every refusal and no caller distinguishes the messages, so a refusal carries no value. */
module Wrappers {
  datatype Option<+T> = None | Some(value: T)

  datatype Result<+T> = Success(value: T) | Failure
}
