/** Results and optional values, standing for the exceptions and the null or undefined values of the source. */
module Wrappers {

  datatype Option<+T> = None | Some(value: T)

  datatype Result<+T, +E> = Ok(value: T) | Err(error: E)

  /** A truth value as a number, for counting. */
  function One(b: bool): nat {
    if b then 1 else 0
  }
}
