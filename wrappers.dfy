/** Optional values and pass/fail outcomes, standing in for C# nullable
    values (`double?`, `TimeSpan?`) and for an exception thrown on failure. */
module Wrappers {

  /** A value that may be absent: `None` plays the part of C#'s `null`. */
  datatype Option<+T> = None | Some(value: T)

  /** The outcome of an operation that either returns normally or throws an
      error carrying a code. */
  datatype Outcome<+E> = Pass | Fail(error: E)
}
