/** Failure results for the table's bounds-checked accessors and name lookup. */
module Results {

  /** The two ways a read of the table can fail. */
  datatype Error =
    | OutOfBounds  // a column or chunk id past the end of its list
    | NotFound     // no column carries the requested name

  datatype Option<+T> = None | Some(value: T)

  datatype Result<+T> = Ok(value: T) | Err(error: Error)
}
