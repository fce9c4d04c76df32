/** Option and Result, used for values that JavaScript leaves undefined, NaN or null,
    and for form checks that either produce a request or an error message. */
module Wrappers {

  datatype Option<+T> = None | Some(value: T)

  datatype Result<+T, +E> = Ok(value: T) | Err(error: E)
}
