/** Optional values and success/failure results, standing in for Go's
    `(value, ok)` pairs and `(value, err)` returns. */
module Results {

  datatype Option<+T> = None | Some(value: T)

  datatype Result<+R, +E> = Success(value: R) | Failure(error: E)
}
