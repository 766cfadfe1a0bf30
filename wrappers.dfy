/** Error-carrying results, standing for Rust's `Result<T, &'static str>`. */
module Wrappers {

  datatype Result<T> = Ok(value: T) | Err(error: string)
}
