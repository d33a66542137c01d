/**
 * The earlier token provider of the rbac-project tree: it sets a "typ" header,
 * reads the clock twice, and has no guard for a missing expiry claim.
 */
module LegacyJwtTokenProvider {
  import opened Outcomes
  import opened JwtCodec
  import JwtTokenProvider

  /**
   * createToken: issuedAt comes from one clock reading and the expiry from a
   * second one, taken later.
   */
  function CreateToken(codec: Codec, custom: map<string, string>, subject: string,
                       issueRead: int, expiryRead: int): (r: string)
    ensures RoundTrips(codec) ==>
      var j := codec.parse(r);
      && j.Some? && j.value.typ == Some("JWT")
      && j.value.claims.subject == Some(subject) && j.value.claims.custom == custom
      && j.value.claims.issuedAt == Some(issueRead) && j.value.claims.expiration == Some(expiryRead + 3_600_000)
  {
    var content := Jwt(Some("JWT"), Claims(Some(subject), Some(issueRead), Some(expiryRead + JwtTokenProvider.LifetimeMillis), custom));
    assert RoundTrips(codec) ==> codec.parse(codec.mint(content)) == Some(content);
    codec.mint(content)
  }

  /** generateToken: a token for the subject with no custom claims. */
  function GenerateToken(codec: Codec, username: string, issueRead: int, expiryRead: int): (r: string)
    ensures RoundTrips(codec) ==>
      codec.parse(r).Some? && codec.parse(r).value.claims.subject == Some(username) &&
      codec.parse(r).value.claims.custom == map[]
  {
    CreateToken(codec, map[], username, issueRead, expiryRead)
  }

  /**
   * extractUsername: the subject of the verified claims; the library's exception
   * for a token that does not parse or is past its expiry.
   */
  function ExtractUsername(codec: Codec, token: string, now: int): (r: Result<Option<string>>)
    ensures r.Success? <==> ParseAt(codec, token, now).Success?
    ensures r.Success? ==> r.value == codec.parse(token).value.claims.subject
    ensures r.Failure? ==> r.error == ParseAt(codec, token, now).error
  {
    match ParseAt(codec, token, now)
    case Failure(e) => Failure(e)
    case Success(j) => Success(j.claims.subject)
  }

  /**
   * isTokenExpired: the expiry strictly before now, dereferenced without a null
   * check, so a token without an expiry throws a null-pointer exception. As the
   * parser refuses an expired token first at the same instant, the test never answers true.
   */
  function IsTokenExpired(codec: Codec, token: string, now: int): (r: Result<bool>)
    ensures r.Success? <==> ParseAt(codec, token, now).Success? && codec.parse(token).value.claims.expiration.Some?
    ensures ParseAt(codec, token, now).Success? && codec.parse(token).value.claims.expiration.None? ==>
      r == Failure(NullPointer)
    ensures r != Success(true)
  {
    match ParseAt(codec, token, now)
    case Failure(e) => Failure(e)
    case Success(j) =>
      match j.claims.expiration
      case None => Failure(NullPointer)
      case Some(exp) => Success(exp < now)
  }

  /** validateToken: not expired. It either answers true or throws. */
  function ValidateToken(codec: Codec, token: string, now: int): (r: Result<bool>)
    ensures r.Success? ==> r.value
    ensures r == Success(true) <==>
      codec.parse(token).Some? &&
      codec.parse(token).value.claims.expiration.Some? && now <= codec.parse(token).value.claims.expiration.value
  {
    match IsTokenExpired(codec, token, now)
    case Failure(e) => Failure(e)
    case Success(expired) => Success(!expired)
  }

  /**
   * A generated token has the "typ: JWT" header and the subject, and with a clock
   * that does not run backwards its expiry is at least one hour after its issue time.
   */
  lemma GeneratedToken(codec: Codec, username: string, issueRead: int, expiryRead: int)
    requires RoundTrips(codec)
    requires issueRead <= expiryRead
    ensures var j := codec.parse(GenerateToken(codec, username, issueRead, expiryRead));
      j.Some? && j.value.typ == Some("JWT") && j.value.claims.subject == Some(username) &&
      j.value.claims.custom == map[] && j.value.claims.issuedAt == Some(issueRead) &&
      j.value.claims.expiration.Some? && j.value.claims.expiration.value >= issueRead + 3_600_000
  {
  }

  /**
   * validateToken is the negation of isTokenExpired and both throw together; when
   * the test answers, it answers whether the expiry is strictly before now.
   */
  lemma ValidateNegatesExpired(codec: Codec, token: string, now: int)
    ensures ValidateToken(codec, token, now).Success? <==> IsTokenExpired(codec, token, now).Success?
    ensures IsTokenExpired(codec, token, now).Success? ==>
      var exp := codec.parse(token).value.claims.expiration;
      && ValidateToken(codec, token, now).value == !IsTokenExpired(codec, token, now).value
      && exp.Some? && IsTokenExpired(codec, token, now).value == (exp.value < now)
  {
  }

  /**
   * The two providers disagree only on a token without an expiry: the current one
   * accepts it, the earlier one throws. Otherwise they give the same verdict.
   */
  lemma VariantsOnExpiry(codec: Codec, token: string, now: int)
    requires codec.parse(token).Some?
    ensures codec.parse(token).value.claims.expiration.None? ==>
      ValidateToken(codec, token, now) == Failure(NullPointer) &&
      JwtTokenProvider.ValidateToken(codec, token, now) == Success(true)
    ensures codec.parse(token).value.claims.expiration.Some? ==>
      ValidateToken(codec, token, now) == JwtTokenProvider.ValidateToken(codec, token, now)
  {
  }
}
