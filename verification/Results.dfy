/** Optional values, and results that carry an error: the shapes of the
    program's (value, error) returns. */
module Results {
  datatype Option<+T> = None | Some(value: T)

  datatype Result<+T, +E> = Ok(value: T) | Err(error: E)
}
