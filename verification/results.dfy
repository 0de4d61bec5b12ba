/** Success-or-error values, used where the original signals through a
    success callback or an error callback. */
module Results {

  datatype Result<+T, +E> = Ok(value: T) | Err(error: E)

}
