/**
 * Failure-carrying values: the parser and the line framing report their
 * error conditions as values instead of aborting.
 */
module Results {

  datatype Option<T> = None | Some(value: T)

  datatype Result<T, E> = Ok(value: T) | Err(error: E)
}
