// The two failure-carrying datatypes every module shares: a value that may be
// absent (Go's nil) and a result that may be an error (Go's error return).

module Wrappers {

  datatype Option<+T> = None | Some(value: T)

  datatype Result<+T> = Ok(value: T) | Err(reason: string)
}
