/**
 * The logout handler: a request carrying a bearer token has the registry record
 * of that token marked expired and revoked; any other request changes nothing.
 */
module Logout {
  import opened Outcomes
  import opened Entities
  import opened Strings
  import opened JwtCodec
  import opened TokenRepository
  import opened JwtAuthenticationFilter

  /** The registry after a logout with this Authorization header. */
  function LogoutEffect(rs: seq<TokenRecord>, header: Option<string>): (r: seq<TokenRecord>)
    ensures |r| == |rs|
    ensures forall i :: 0 <= i < |rs| && r[i] != rs[i] ==>
      r[i] == Revoke(rs[i]) && GetTokenFromRequest(header) == Some(rs[i].token)
  {
    var token := GetTokenFromRequest(header);
    if token.None? then rs
    else
      match MatchToken(rs, token.value)
      case Match(k) => rs[k := Revoke(rs[k])]
      case _ => rs
  }

  /** The registry calls of a logout: the lookup, then a save of the record it found. */
  function LogoutCalls(rs: seq<TokenRecord>, header: Option<string>): (r: seq<Call>)
    ensures r == [] <==> GetTokenFromRequest(header).None?
    ensures r != [] ==> |r| <= 2 && r[0] == FindByTokenCall(GetTokenFromRequest(header).value)
    ensures |r| == 2 ==>
      var m := MatchToken(rs, GetTokenFromRequest(header).value);
      m.Match? && r[1] == SaveCall(LogoutEffect(rs, header)[m.index])
  {
    var token := GetTokenFromRequest(header);
    if token.None? then []
    else
      [FindByTokenCall(token.value)] +
      match MatchToken(rs, token.value)
      case Match(k) => [SaveCall(Revoke(rs[k]))]
      case _ => []
  }

  /** How a logout ends: normally, unless the lookup matches several records and throws. */
  function LogoutOutcome(rs: seq<TokenRecord>, header: Option<string>): (r: Result<()>)
    ensures r.Failure? <==>
      var token := GetTokenFromRequest(header);
      token.Some? && exists a, b :: 0 <= a < b < |rs| && rs[a].token == token.value && rs[b].token == token.value
    ensures r.Failure? ==> r.error == IncorrectResultSize
  {
    var token := GetTokenFromRequest(header);
    if token.Some? && MatchToken(rs, token.value).NonUnique? then Failure(IncorrectResultSize) else Success(())
  }

  /** Without a "Bearer " header a logout makes no registry call and changes nothing. */
  lemma MalformedHeaderIgnored(rs: seq<TokenRecord>, header: Option<string>)
    requires header.None? || !StartsWith(header.value, BearerPrefix)
    ensures LogoutEffect(rs, header) == rs && LogoutCalls(rs, header) == [] && LogoutOutcome(rs, header) == Success(())
  {
  }

  /**
   * A logout whose token is stored revokes that record and only it; a token that
   * is not stored leaves the registry as it was after the one lookup.
   */
  lemma LogoutRevokesOnlyItsRecord(rs: seq<TokenRecord>, token: string)
    ensures var rs' := LogoutEffect(rs, Some(BearerPrefix + token));
      match MatchToken(rs, token)
      case Match(k) =>
        && |rs'| == |rs| && !Live(rs'[k]) && rs'[k].token == token && rs'[k].userId == rs[k].userId
        && (forall i :: 0 <= i < |rs| && i != k ==> rs'[i] == rs[i])
        && LogoutCalls(rs, Some(BearerPrefix + token)) == [FindByTokenCall(token), SaveCall(rs'[k])]
      case NoMatch =>
        rs' == rs && LogoutCalls(rs, Some(BearerPrefix + token)) == [FindByTokenCall(token)]
      case NonUnique =>
        rs' == rs && LogoutOutcome(rs, Some(BearerPrefix + token)) == Failure(IncorrectResultSize)
  {
    BearerRoundTrip(token);
  }

  /** When every stored token string is distinct, logout never throws. */
  lemma LogoutNeverFails(rs: seq<TokenRecord>, header: Option<string>)
    requires UniqueTokens(rs)
    ensures LogoutOutcome(rs, header) == Success(())
  {
  }

  /**
   * Logging out twice with the same header leaves the registry as one logout
   * does, ends the same way, and repeats the same lookup and the same save.
   */
  lemma LogoutIdempotent(rs: seq<TokenRecord>, header: Option<string>)
    ensures LogoutEffect(LogoutEffect(rs, header), header) == LogoutEffect(rs, header)
    ensures LogoutOutcome(LogoutEffect(rs, header), header) == LogoutOutcome(rs, header)
    ensures LogoutCalls(LogoutEffect(rs, header), header) == LogoutCalls(rs, header)
  {
    var token := GetTokenFromRequest(header);
    if token.Some? {
      var rs' := LogoutEffect(rs, header);
      MatchTokenIgnoresFlags(rs, rs', token.value);
    }
  }

  /** A logout keeps the registry invariants and is a legal evolution of the registry. */
  lemma LogoutKeepsInvariants(rs: seq<TokenRecord>, header: Option<string>)
    ensures Evolves(rs, LogoutEffect(rs, header))
    ensures FlagsAgree(rs) ==> FlagsAgree(LogoutEffect(rs, header))
    ensures AtMostOneLivePerUser(rs) ==> AtMostOneLivePerUser(LogoutEffect(rs, header))
    ensures |LogoutEffect(rs, header)| == |rs|
  {
  }

  /**
   * After a logout whose token was stored, the filter rejects that header in the
   * registry the logout leaves and in every later one.
   */
  lemma LoggedOutTokenRejected(rs: seq<TokenRecord>, header: Option<string>, rs'': seq<TokenRecord>,
                               users: map<string, Entities.User>, codec: Codec, now: int)
    requires forall e :: e in users ==> users[e].email == e
    requires GetTokenFromRequest(header).Some? && MatchToken(rs, GetTokenFromRequest(header).value).Match?
    requires Evolves(LogoutEffect(rs, header), rs'')
    ensures ResolvedPrincipal(header, rs'', users, codec, now).None?
  {
    var k := MatchToken(rs, GetTokenFromRequest(header).value).index;
    RevokedTokenStaysRejected(LogoutEffect(rs, header), rs'', k, users, codec, now);
  }

  class LogoutService {
    const tokenRepository: TokenRegistry

    constructor (tokenRepository: TokenRegistry)
      ensures this.tokenRepository == tokenRepository
    {
      this.tokenRepository := tokenRepository;
    }

    /** logout: revokes the record of the request's bearer token, if one is stored. */
    method Logout(authorization: Option<string>) returns (r: Result<()>)
      modifies tokenRepository
      ensures r == LogoutOutcome(old(tokenRepository.records), authorization)
      ensures tokenRepository.records == LogoutEffect(old(tokenRepository.records), authorization)
      ensures tokenRepository.calls == old(tokenRepository.calls) + LogoutCalls(old(tokenRepository.records), authorization)
    {
      var token := GetTokenFromRequest(authorization);
      if token.None? {
        return Success(());
      }
      var optionalToken := tokenRepository.FindByToken(token.value);
      match optionalToken
      case NonUnique =>
        r := Failure(IncorrectResultSize);
      case NoMatch =>
        r := Success(());
      case Match(k) =>
        var storedToken := Revoke(tokenRepository.records[k]);
        tokenRepository.Update(k, storedToken);
        r := Success(());
    }
  }
}
