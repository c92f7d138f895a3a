/** Small failure-carrying datatypes shared by the modules of this project. */
module Results {

  /** An optional value: Python's "argument not given" or a missing entry. */
  datatype Option<+T> = None | Some(value: T)

  /** A value or the error that the Python code raises instead of returning one. */
  datatype Result<+T, +E> = Ok(value: T) | Err(error: E)
}
