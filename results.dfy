/** Optional values and the outcome of an operation that may raise. */
module Results {

  /** A field of a citation record that may be absent. */
  datatype Option<+T> = None | Some(value: T)

  /** The Python exceptions the renderer raises on a malformed record. */
  datatype Fault =
    | KeyError(key: string)     // a required key is missing from a record
    | IndexError(what: string)  // an empty list was indexed

  /** The value an operation returns, or the exception it raises. */
  datatype Result<+T> = Ok(value: T) | Err(fault: Fault)
}
