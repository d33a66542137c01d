/**
 * The password encoder the services are given. BCrypt itself is not modelled:
 * the encoder is an opaque pair of functions.
 */
module PasswordEncoding {

  /** encode hashes a raw password; matches(raw, hash) checks a raw password against a hash. */
  datatype PasswordEncoder = PasswordEncoder(encode: string -> string, matches: (string, string) -> bool)

  /** The one property the services rely on: an encoded password matches its raw form. */
  ghost predicate Sound(pe: PasswordEncoder)
  {
    forall raw :: pe.matches(raw, pe.encode(raw))
  }
}
