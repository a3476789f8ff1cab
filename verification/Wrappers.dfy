/** Results of operations that can fail, as expected<T> and thrown exceptions in the source. */
module Wrappers {

  datatype Option<+T> = None | Some(value: T)

  datatype Result<+T> = Ok(value: T) | Err(message: string)
}
