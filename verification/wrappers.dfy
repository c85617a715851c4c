/** Optional values and error-carrying results, standing in for the
    `null` returns of the game and the loader's thrown errors. */
module Wrappers {

  /** A value that may be absent, as a `null` return of the game is. */
  datatype Option<+T> = None | Some(value: T)

  /** Either a value or an error message, as a thrown `Error` in the loader is. */
  datatype Result<+T> = Success(value: T) | Failure(error: string)
}
