/** Values shared by the whole model: optional values, the outcome of a call
    into a foreign library (which either returns a value or raises), and bytes. */
module Outcomes {

  /** A value that may be absent (a missing form field, a missing upload). */
  datatype Option<+T> = None | Some(value: T) {

    /** Python's `dict.get(key, default)` once the lookup has been done. */
    function GetOr(default: T): (r: T)
      ensures Some? ==> r == value
      ensures None? ==> r == default
    {
      match this
      case Some(v) => v
      case None => default
    }
  }

  /** What a call into a library the model cannot see produced: a value, or an
      exception whose `str(e)` is `msg`. */
  datatype Outcome<+T> = Ok(value: T) | Fail(msg: string)

  /** One byte of an uploaded file. */
  newtype byte = x: int | 0 <= x < 256
}
