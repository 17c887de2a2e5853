/** Optional values and results with an error, used for the absent values
    (`undefined`, a missing key) and the thrown errors of the modelled code. */
module Results {

  datatype Option<+T> = None | Some(value: T)

  datatype Result<+T, +E> = Success(value: T) | Failure(error: E)

}
