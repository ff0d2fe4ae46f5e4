/** Optional values and results that may be errors. */
module Wrappers {
  datatype Option<+T> = None | Some(value: T)

  /** `Invalid` is a rejected argument, `Timeout` a limit that was reached. */
  datatype Error = Invalid | Timeout

  datatype Result<+T> = Ok(value: T) | Err(error: Error)
}
