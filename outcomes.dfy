/** Optional values and the exceptions the Java code raises, as values. */
module Outcomes {

  /** Java's Optional, or a reference that may be null. */
  datatype Option<+T> = None | Some(value: T)

  /** The kinds of exception the core raises or lets through. */
  datatype Exception =
    | IllegalArgument(message: string)    // the services' own business errors
    | UsernameNotFound(message: string)   // the user-details lookup found nobody
    | JwtException                        // a token that does not parse or whose signature fails
    | ExpiredJwt                          // a token past its expiry, which the parser itself rejects
    | NullPointer                         // a dereference of an absent value
    | IncorrectResultSize                 // a single-result query that matched several rows

  /** A call that either returns a value or throws. */
  datatype Result<+T> = Success(value: T) | Failure(error: Exception)
}
