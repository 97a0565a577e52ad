// Small value wrappers shared by every module: the optional value and the
// success/failure result that the server actions return as
// `{ success, data?, error? }`.
module Base {

  datatype Option<+T> = None | Some(value: T) {
    function GetOr(default: T): T {
      match this
      case Some(v) => v
      case None => default
    }
  }

  datatype Result<+T, +E> = Success(value: T) | Failure(error: E)

  /** A result that carries no value on success. */
  datatype Outcome<+E> = Pass | Fail(error: E)

  /** The interface language of every page and component. */
  datatype Language = Fr | Ar
}
