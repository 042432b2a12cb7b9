/** Optional values and operation outcomes shared by every module. */
module Results {

  /** A nullable value: `None` stands for SQL NULL or an absent JSON field. */
  datatype Option<+T> = None | Some(value: T)

  /** The ways a handler can fail. `Validation` is a request rejected before the
      store is touched (HTTP 400); `Storage` is a statement the database refused
      (a NOT NULL or FOREIGN KEY constraint, a full rowid space, a malformed statement);
      `Exception` is a JavaScript exception thrown out of the handler, which Express
      answers with HTTP 500. */
  datatype ErrorKind = Validation | Storage | Exception

  datatype Result<+T> = Ok(value: T) | Err(error: ErrorKind)
}
