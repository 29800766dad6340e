/** Optional values and outcomes that may be an exception. */
module Wrappers {
  datatype Option<+T> = None | Some(value: T)

  /** `Threw` stands for a rejected promise; the message is not modelled. */
  datatype Result<+T> = Ok(value: T) | Threw
}
