/** Optional values and results with an error side, used for the points
    where the morphing script raises a Python exception. */
module Wrappers {

  datatype Option<+T> = None | Some(value: T)

  datatype Result<+R, +E> = Success(value: R) | Failure(error: E)
}
