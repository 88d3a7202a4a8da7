/** Option and Result, the two failure-carrying shapes the model uses in place of
    Ruby's nil and raised exceptions. */
module Wrappers {

  datatype Option<+T> = None | Some(value: T)

  datatype Result<+R, +E> = Ok(value: R) | Err(error: E)
}
