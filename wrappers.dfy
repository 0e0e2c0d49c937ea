/** Optional values and results with an error, used wherever the portal
    either reads a possibly missing value (a NULL column, an empty cell,
    a form field that does not parse) or reports an error to the caller. */
module Wrappers {

  datatype Option<+T> = None | Some(value: T)

  datatype Result<+R, +E> = Ok(value: R) | Err(error: E)

  /** The value of `o`, or `default` when it is missing (Python's `x or default`
      and `dict.get(k, default)`). */
  function GetOr<T>(o: Option<T>, default: T): T
  {
    match o
    case Some(v) => v
    case None => default
  }
}
