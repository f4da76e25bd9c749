/** Error outcomes of the Array container. Allocation failure (OutOfMemoryError)
    is not modelled: storage is always obtained in this model. */
module ArrayErrors {

  /** The exceptions the container throws. */
  datatype Error =
    | IndexOutOfBounds  // an index outside [0, length), or pop on an empty array
    | ValueError        // removal of a value that is not in the array

  /** The outcome of an operation that returns nothing but may throw. */
  datatype Outcome = Pass | Fail(error: Error)

  /** The outcome of an operation that returns a value but may throw. */
  datatype Result<T> = Ok(value: T) | Err(error: Error)
}
