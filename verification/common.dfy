/** Failure-carrying results shared by the pager and the file-server helpers. */
module Common {

  /** `None` models a null pointer or a thrown `-1`. */
  datatype Option<T> = None | Some(value: T)

  /** `Failure` models a thrown `SysError`, carrying its message. */
  datatype Result<T> = Success(value: T) | Failure(error: string)

  /** A check that either passes or throws. */
  datatype Outcome = Pass | Fail(error: string)
}
