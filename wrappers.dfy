/** Optional values and results with an error: the null-or-document answers of the store
    and the thrown errors of the cache service become values of these types. */
module Wrappers {

  datatype Option<T> = None | Some(value: T)

  datatype Result<T, E> = Ok(value: T) | Err(error: E)
}
