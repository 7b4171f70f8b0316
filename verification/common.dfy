/** Shared value wrappers. */
module Common {

  /** A value that may be absent: a JavaScript `undefined` or a query that found nothing. */
  datatype Option<+T> = None | Some(value: T)
}
