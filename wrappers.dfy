/** Option and Result values for the uploader's error paths and for reads
    that JavaScript would answer with `undefined`. */
module Wrappers {

  datatype Option<+T> = None | Some(value: T)

  datatype Result<+T, +E> = Ok(value: T) | Err(error: E)
}
