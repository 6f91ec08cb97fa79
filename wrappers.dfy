/** An optional value (a NULL pointer in the C code) and a result carrying an
    error tag. */
module Wrappers {

  datatype Option<T> = None | Some(value: T)

  datatype Result<T, E> = Success(value: T) | Failure(error: E)
}
