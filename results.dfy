/** Failure signals of the bit array: the source throws `logic_error` on any
    out-of-range index and `runtime_error` on a bad character in the string
    constructor. */
module Results {

  datatype Error =
    | OutOfRange      // logic_error: a bit position or span beyond size()
    | BadChar(c: char) // runtime_error: a character other than '0' or '1'

  /** A value or the error that replaced it. */
  datatype Result<T> = Ok(value: T) | Err(error: Error)

  /** The outcome of a mutator that returns nothing when it succeeds. */
  datatype Outcome = Done | Failed(error: Error)
}
