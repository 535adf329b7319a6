// Results of operations that can fail. A thrown JavaScript error and a Go
// error return are both Err; their messages are not modelled.
module Wrappers {

  datatype Option<+T> = None | Some(value: T)

  datatype Result<+T> = Ok(value: T) | Err
}
