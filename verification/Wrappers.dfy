/** The optional value and the success-or-error value that the C++ code writes as
    `std::optional` and as result structs with an `ok` flag. */
module Wrappers {
  datatype Option<+T> = None | Some(value: T)

  datatype Result<+R, +E> = Success(value: R) | Failure(error: E)
}
