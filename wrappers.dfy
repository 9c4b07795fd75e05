/** Optional values and fallible results, the model's stand-ins for Rust's `Option`
    and for the operations that `panic!` in the source. */
module Wrappers {

  datatype Option<+T> = None | Some(value: T)

  /** The error a panicking operation of the source is modelled by. */
  datatype Result<+T> = Success(value: T) | Failure(reason: string)
}
