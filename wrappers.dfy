/** Small value wrappers shared by the model. */
module Wrappers {

  /** A value that may be absent. */
  datatype Option<+T> = None | Some(value: T)

  /** What an awaited call to the property service produced: the
      value it resolved with, or a rejection (the thrown error is
      only logged by the callers, so it carries no payload here). */
  datatype Outcome<+T> = Success(value: T) | Failure
}
