/**
 The failure-carrying datatypes of the credit service. The C# service signals
 its failures with exceptions (a rejected loan amount, an unknown client); the
 model returns them as values instead.
 */
module Results {

  /** A value that may be absent, as a database lookup by key that finds nothing. */
  datatype Option<+T> = None | Some(value: T)

  /** Why an operation of the service was refused. */
  datatype Error =
    | InvalidInput     // non-positive amount, rate or term (an ArgumentException in the service)
    | ClientNotFound   // a credit request naming a client that does not exist

  /** The outcome of an operation that can be refused. */
  datatype Result<+T> = Success(value: T) | Failure(error: Error)
}
