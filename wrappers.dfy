/** Option and Result: the error paths of the scripts (a Python exception or a
    `None` return) become values instead of preconditions. */
module Wrappers {

  datatype Option<+T> = None | Some(value: T)

  /** `Err` stands for a raised exception; the message is not modelled. */
  datatype Result<+T> = Ok(value: T) | Err
}
