/** Failure-carrying values: the model's stand-in for thrown errors and
    for JavaScript's `undefined`. */
module Results {

  datatype Option<+T> = None | Some(value: T)

  datatype Result<+T, +E> = Ok(value: T) | Err(error: E)
}
