/** Identifiers and the small wrapper datatypes shared by every module. */
module Common {

  /** Primary keys of the persisted rows. Student and Instructor rows are
      one-to-one with their user, so both are keyed by the user's id. */
  type UserId = nat
  type CourseId = nat
  type LessonId = nat

  /** An optional value: a form field that may be absent, a caller that may be anonymous. */
  datatype Option<+T> = None | Some(value: T) {
    function GetOr(default: T): T {
      match this
      case Some(v) => v
      case None => default
    }
  }

  /** A value or the error that replaced it. */
  datatype Result<+T, +E> = Success(value: T) | Failure(error: E)
}
