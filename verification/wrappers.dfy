/** The wrappers used for Java's `Optional`, nullable references and thrown exceptions. */
module Wrappers {

  /** `None` stands for `Optional.empty()` or a Java `null`; `Some(v)` for a present value. */
  datatype Option<+T> = None | Some(value: T)

  /** `Success(v)` is a normal return of `v`; `Failure(e)` is the exception `e` escaping to the caller. */
  datatype Result<+R, +E> = Success(value: R) | Failure(error: E)
}
