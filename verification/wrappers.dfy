/** Failure-carrying result types shared by the whole model. */
module Wrappers {

  /** A value that may be absent: Python's `None` return. */
  datatype Option<+T> = None | Some(value: T)

  /** Why a call ended with a raised exception instead of a return value. */
  datatype Error =
    | OpenError          // `open()` raised (file missing, permission denied)
    | ValueError         // `int()` or `bytes()` rejected a value
    | NotADirectory      // a base-path setter was given a non-directory
    | HttpError          // a catalog fetch failed
    | FileNotFound       // a tag reader was given a missing file
    | AttributeError     // a tag lookup on a reader whose tag handle was dropped

  /** A call that either returns a value or raises. */
  datatype Result<+T> = Ok(value: T) | Raised(error: Error)
}
