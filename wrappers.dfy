/** Option and Result, used for absent dictionary keys and for the
    exceptions the route code lets escape. */
module Wrappers {

  datatype Option<+T> = None | Some(value: T)

  datatype Result<+R, +E> = Ok(value: R) | Err(error: E)
}
