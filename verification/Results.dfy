/** A value, or the exception that was thrown instead. */
module Results {
  datatype Result<+T> = Ok(value: T) | Exception
}
