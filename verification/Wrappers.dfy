/** Optional values and results that can fail with a message (a thrown
    `Error` in the sources). */
module Wrappers {

  datatype Option<T> = None | Some(value: T)

  datatype Result<T> = Ok(value: T) | Err(msg: string)
}
