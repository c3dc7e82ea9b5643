/** Optional values and results with an error, as the service uses them:
    `Option` for the optional `region` query parameter and `Result` for the
    outcome of fetching the upstream document. */
module Wrappers {

  datatype Option<+T> = None | Some(value: T)

  datatype Result<+R, +E> = Success(value: R) | Failure(error: E)
}
