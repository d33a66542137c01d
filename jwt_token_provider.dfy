/**
 * The current token provider: claim construction, subject extraction and the
 * expiry test. Every read of a token goes through the library's parser, which
 * already refuses a token past its expiry.
 */
module JwtTokenProvider {
  import opened Outcomes
  import opened JwtCodec

  /** The fixed token lifetime: 60 minutes, in milliseconds. */
  const LifetimeMillis: int := 60 * 60 * 1000

  /** createToken: the given claims plus subject, issue time and expiry, from one clock reading. */
  function CreateToken(codec: Codec, custom: map<string, string>, subject: string, now: int): (r: string)
    ensures RoundTrips(codec) ==>
      var j := codec.parse(r);
      && j.Some? && j.value.typ.None?
      && j.value.claims.subject == Some(subject) && j.value.claims.custom == custom
      && j.value.claims.issuedAt == Some(now) && j.value.claims.expiration == Some(now + 3_600_000)
  {
    var content := Jwt(None, Claims(Some(subject), Some(now), Some(now + LifetimeMillis), custom));
    assert RoundTrips(codec) ==> codec.parse(codec.mint(content)) == Some(content);
    codec.mint(content)
  }

  /** generateToken: a token for the subject with no custom claims. */
  function GenerateToken(codec: Codec, username: string, now: int): (r: string)
    ensures RoundTrips(codec) ==>
      codec.parse(r).Some? && codec.parse(r).value.claims.subject == Some(username) &&
      codec.parse(r).value.claims.custom == map[]
  {
    CreateToken(codec, map[], username, now)
  }

  /**
   * extractAllClaims: the verified claims of a token that parses and is not past
   * its expiry; the library's exception otherwise.
   */
  function ExtractAllClaims(codec: Codec, token: string, now: int): (r: Result<Claims>)
    ensures r.Success? <==>
      codec.parse(token).Some? &&
      (codec.parse(token).value.claims.expiration.None? || now <= codec.parse(token).value.claims.expiration.value)
    ensures r.Success? ==> r.value == codec.parse(token).value.claims
  {
    match ParseAt(codec, token, now)
    case Failure(e) => Failure(e)
    case Success(j) => Success(j.claims)
  }

  /** extractUsername: the subject claim, null when the token carries none. */
  function ExtractUsername(codec: Codec, token: string, now: int): (r: Result<Option<string>>)
    ensures r.Success? <==> ExtractAllClaims(codec, token, now).Success?
    ensures r.Success? ==> r.value == codec.parse(token).value.claims.subject
  {
    match ExtractAllClaims(codec, token, now)
    case Failure(e) => Failure(e)
    case Success(c) => Success(c.subject)
  }

  /**
   * isTokenExpired: the expiry is present and strictly before now; a missing
   * expiry is not expired. With the parse and the test taken at one instant,
   * the parser has already refused an expired token, so the test never answers true.
   */
  function IsTokenExpired(codec: Codec, token: string, now: int): (r: Result<bool>)
    ensures r.Success? <==> ExtractAllClaims(codec, token, now).Success?
    ensures r != Success(true)
  {
    match ExtractAllClaims(codec, token, now)
    case Failure(e) => Failure(e)
    case Success(c) => Success(c.expiration.Some? && c.expiration.value < now)
  }

  /** validateToken: not expired. It either answers true or throws. */
  function ValidateToken(codec: Codec, token: string, now: int): (r: Result<bool>)
    ensures r.Success? ==> r.value
    ensures r == Success(true) <==>
      codec.parse(token).Some? &&
      (codec.parse(token).value.claims.expiration.None? || now <= codec.parse(token).value.claims.expiration.value)
  {
    match IsTokenExpired(codec, token, now)
    case Failure(e) => Failure(e)
    case Success(expired) => Success(!expired)
  }

  /**
   * Up to its expiry a generated token yields the subject, the issue time, expiry
   * one hour later and no other claim; after it, reading it throws the expired-token
   * exception.
   */
  lemma GeneratedClaims(codec: Codec, username: string, now: int, later: int)
    requires RoundTrips(codec)
    ensures later <= now + 3_600_000 ==>
      ExtractAllClaims(codec, GenerateToken(codec, username, now), later)
        == Success(Claims(Some(username), Some(now), Some(now + 3_600_000), map[]))
    ensures later > now + 3_600_000 ==>
      ExtractAllClaims(codec, GenerateToken(codec, username, now), later) == Failure(ExpiredJwt)
  {
    ParseMinted(codec, Jwt(None, Claims(Some(username), Some(now), Some(now + LifetimeMillis), map[])), later);
  }

  /** Until it expires, the subject of a generated token is the name it was generated for. */
  lemma UsernameRoundTrip(codec: Codec, username: string, now: int, later: int)
    requires RoundTrips(codec)
    requires later <= now + 3_600_000
    ensures ExtractUsername(codec, GenerateToken(codec, username, now), later) == Success(Some(username))
  {
    GeneratedClaims(codec, username, now, later);
  }

  /**
   * A token generated at now validates at every instant up to and including
   * now + 3 600 000 ms; after that, validation throws rather than answering false.
   */
  lemma FreshTokenValidity(codec: Codec, username: string, now: int, later: int)
    requires RoundTrips(codec)
    ensures ValidateToken(codec, GenerateToken(codec, username, now), later)
         == if later <= now + 3_600_000 then Success(true) else Failure(ExpiredJwt)
  {
    GeneratedClaims(codec, username, now, later);
  }

  /**
   * validateToken is the negation of isTokenExpired and both throw together;
   * when the test answers, it answers whether the expiry is strictly before now.
   */
  lemma ValidateNegatesExpired(codec: Codec, token: string, now: int)
    ensures ValidateToken(codec, token, now).Success? <==> IsTokenExpired(codec, token, now).Success?
    ensures IsTokenExpired(codec, token, now).Success? ==>
      var exp := codec.parse(token).value.claims.expiration;
      && ValidateToken(codec, token, now).value == !IsTokenExpired(codec, token, now).value
      && IsTokenExpired(codec, token, now).value == (exp.Some? && exp.value < now)
  {
  }

  /** The check is strict: a token is still valid at the exact instant of its expiry. */
  lemma ValidAtExpiryInstant(codec: Codec, token: string)
    requires codec.parse(token).Some? && codec.parse(token).value.claims.expiration.Some?
    ensures ValidateToken(codec, token, codec.parse(token).value.claims.expiration.value) == Success(true)
  {
  }

  /** A token without an expiry claim never counts as expired. */
  lemma MissingExpiryNeverExpires(codec: Codec, token: string, now: int)
    requires codec.parse(token).Some? && codec.parse(token).value.claims.expiration.None?
    ensures IsTokenExpired(codec, token, now) == Success(false)
    ensures ValidateToken(codec, token, now) == Success(true)
  {
  }
}
