/** Failure reporting shared by the field, polynomial and codec layers.
    Each error kind stands for an exception the codec can raise. */
module Results {

  datatype Error =
    | InvalidConfiguration  // the parity-symbol count is not positive
    | InvalidInput          // empty message, or a received word no longer than the parity count
    | DivisionByZero        // a zero field element or the zero polynomial as divisor
    | NegativeArraySize     // an array allocated with a negative length
    | IndexOutOfRange       // an array written outside its bounds

  datatype Result<+T> = Ok(value: T) | Err(error: Error)
}
