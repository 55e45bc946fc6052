/** The outcome of an operation that can fail: a value, or the error the operation fails with. */
module Results {

  datatype Result<T, E> = Ok(value: T) | Err(error: E)

}
