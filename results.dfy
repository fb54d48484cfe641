/** The outcome of an operation that can fail: the value it produced, or why it did not. */
module Results {

  datatype Result<T, E> = Ok(value: T) | Err(error: E)
}
