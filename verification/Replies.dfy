/** Results in the shape Go returns them. */
module Replies {
  datatype Option<+T> = None | Some(value: T)

  /** A value together with an error that may be nil; the value is there even when the error is. */
  datatype Reply<+R> = Reply(value: R, err: Option<string>) {
    predicate Ok() { err.None? }
  }
}
