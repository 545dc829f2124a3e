/** Option and Result, used for the foreign calls that may fail and for the
    records the pipeline refuses. */
module Wrappers {

  datatype Option<+T> = None | Some(value: T)

  datatype Result<+T, +E> = Ok(value: T) | Err(error: E)
}
