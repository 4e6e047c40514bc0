/** Optional values and results, for hits that may not happen and for
    constructors that may reject their arguments. */
module Wrappers {

  datatype Option<T> = None | Some(value: T)

  datatype Result<T, E> = Ok(value: T) | Err(error: E)
}
