/**
 * The signed token format (RFC 7519 claims in the JWS compact serialisation of
 * RFC 7515, signed with HMAC-SHA256 as in section 3.2 of RFC 7518), kept opaque:
 * minting and parsing are a pair of functions, and only the claims are modelled.
 */
module JwtCodec {
  import opened Outcomes

  /**
   * The registered claims the code reads or writes: "sub" (section 4.1.2 of
   * RFC 7519), "iat" (section 4.1.6) and "exp" (section 4.1.4), as milliseconds
   * since the epoch; any of them may be missing from a token that was not minted
   * here. custom holds the other claims.
   */
  datatype Claims = Claims(
    subject: Option<string>,
    issuedAt: Option<int>,
    expiration: Option<int>,
    custom: map<string, string>)

  /** A token's content: the "typ" header parameter, if set, and the claims. */
  datatype Jwt = Jwt(typ: Option<string>, claims: Claims)

  /**
   * mint signs and serialises with the process-wide key; parse checks the
   * signature and decodes, None standing for the exception the library throws on
   * a malformed or badly signed token. The expiry check the library makes while
   * parsing depends on the clock and is ParseAt below.
   */
  datatype Codec = Codec(mint: Jwt -> string, parse: string -> Option<Jwt>)

  /** The assumption made of the library: parsing a minted token gives its content back. */
  ghost predicate RoundTrips(c: Codec)
  {
    forall j :: c.parse(c.mint(j)) == Some(j)
  }

  /**
   * The library's parse of signed claims at a given instant: a token that does not
   * decode or verify throws; one whose expiry lies strictly before now throws the
   * expired-token exception; any other yields its content. There is no clock skew
   * allowance.
   */
  function ParseAt(c: Codec, token: string, now: int): (r: Result<Jwt>)
    ensures r.Success? <==>
      c.parse(token).Some? && (c.parse(token).value.claims.expiration.None? || now <= c.parse(token).value.claims.expiration.value)
    ensures r.Success? ==> r.value == c.parse(token).value
    ensures r.Failure? ==> (r.error == ExpiredJwt <==> c.parse(token).Some?)
  {
    match c.parse(token)
    case None => Failure(JwtException)
    case Some(j) =>
      if j.claims.expiration.Some? && j.claims.expiration.value < now then Failure(ExpiredJwt) else Success(j)
  }

  /** A minted token parses back to its content up to its expiry instant, and is refused as expired after it. */
  lemma ParseMinted(c: Codec, j: Jwt, now: int)
    requires RoundTrips(c)
    ensures j.claims.expiration.None? || now <= j.claims.expiration.value ==> ParseAt(c, c.mint(j), now) == Success(j)
    ensures j.claims.expiration.Some? && j.claims.expiration.value < now ==> ParseAt(c, c.mint(j), now) == Failure(ExpiredJwt)
  {
    assert c.parse(c.mint(j)) == Some(j);
  }
}
