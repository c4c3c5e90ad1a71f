/** Result and option types shared by every module. */
module Wrappers {

  datatype Option<+T> = None | Some(value: T)

  /** Success, or the reason an operation refused. */
  datatype Result<+T, +E> = Ok(value: T) | Err(error: E)
}
