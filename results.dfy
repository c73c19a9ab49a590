/** Optional values and error-or-value results, standing for JavaScript's
    `undefined` arguments and thrown exceptions. */
module Results {

  datatype Option<+T> = None | Some(value: T)

  datatype Result<+T, +E> = Success(value: T) | Failure(error: E)
}
