/** The optional value used wherever the program uses `None` (or NaN) for "absent", and a result with an error. */
module Options {

  datatype Option<+T> = None | Some(value: T)

  datatype Result<+T, +E> = Ok(value: T) | Err(error: E)
}
