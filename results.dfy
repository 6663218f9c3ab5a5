/** Optional values and results with an error, for the pipeline's "nothing found" and thrown-error paths. */
module Results {

  datatype Option<+T> = None | Some(value: T)

  datatype Result<+T, +E> = Success(value: T) | Failure(error: E)
}
