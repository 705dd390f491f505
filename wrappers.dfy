/** Option and Outcome, the two small failure-carrying types the model needs. */
module Wrappers {

  /** A value that may be absent; `None` stands for a C# `null`. */
  datatype Option<+T> = None | Some(value: T)

  /** Whether an operation ran to completion or ended with an exception. */
  datatype Outcome<+E> = Pass | Fail(error: E)
}
