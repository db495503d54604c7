/** Failure-carrying wrappers shared by the catalog, ranking and metadata models. */
module Outcomes {

  /** An optional value: a missing movie id, an absent JSON field, a failed lookup. */
  datatype Option<+T> = None | Some(value: T) {

    /** The carried value, or `default` when there is none. */
    function GetOr(default: T): T
    {
      match this
      case Some(v) => v
      case None => default
    }
  }

  /** A value, or the error that prevented computing it. */
  datatype Result<+T, +E> = Ok(value: T) | Err(error: E)
}
