/** Failure-carrying values shared by every stage of the alumni pipeline. */
module Results {

  /** A value that may be missing: JavaScript's `null`/`undefined` results. */
  datatype Option<+T> = None | Some(value: T)

  /** Either a computed value or the error a JavaScript function would throw. */
  datatype Result<+T, +E> = Success(value: T) | Failure(error: E)

  /** One schema-validation problem: the path of the offending field and a message. */
  datatype Issue = Issue(path: seq<string>, message: string)
}
