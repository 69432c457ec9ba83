/** Optional values and success-or-error results, used where the services
    may find nothing (a missing category) or may fail (an AppError). */
module Wrappers {

  datatype Option<+T> = None | Some(value: T)

  datatype Result<+R, +E> = Success(value: R) | Failure(error: E)
}
