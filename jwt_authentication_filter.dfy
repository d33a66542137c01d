/**
 * The per-request authentication filter: it extracts a bearer token from the
 * Authorization header (the scheme of section 2.1 of RFC 6750), accepts it only
 * when the registry holds it live and the token provider validates it, and then
 * sets a principal carrying the user's authorities. Any exception leaves the
 * request unauthenticated; the chain always goes on.
 */
module JwtAuthenticationFilter {
  import opened Outcomes
  import opened Entities
  import opened Strings
  import opened JwtCodec
  import opened TokenRepository
  import opened UserRepository
  import opened CustomUserDetailsService
  import JwtTokenProvider

  const BearerPrefix := "Bearer "

  /** getTokenFromRequest: the header without its "Bearer " prefix, or null. */
  function GetTokenFromRequest(header: Option<string>): (r: Option<string>)
    ensures r.Some? <==> header.Some? && StartsWith(header.value, BearerPrefix)
    ensures r.Some? ==> header.value == BearerPrefix + r.value
  {
    if header.Some? && StartsWith(header.value, BearerPrefix) then
      PrefixSplit(header.value, BearerPrefix);
      Some(header.value[7..])
    else None
  }

  /** A header built from a token gives that token back. */
  lemma BearerRoundTrip(token: string)
    ensures GetTokenFromRequest(Some(BearerPrefix + token)) == Some(token)
  {
    PrefixRoundTrip(BearerPrefix, token);
  }

  /** The authentication the filter stores: the loaded user details and their authorities. */
  datatype Principal = Principal(details: UserDetails, authorities: set<string>)

  /**
   * What the filter's try block ends with: Success(Some(p)) when it sets the
   * principal p, Success(None) when it sets nothing, Failure when a step throws.
   * A request without a token still queries the registry, for null, and matches
   * nothing.
   */
  function Authentication(header: Option<string>, rs: seq<TokenRecord>, users: map<string, User>,
                          codec: Codec, now: int): (r: Result<Option<Principal>>)
    requires forall e :: e in users ==> users[e].email == e
    ensures GetTokenFromRequest(header).None? ==> r == Success(None)
    ensures GetTokenFromRequest(header).Some? ==>
      var m := MatchToken(rs, GetTokenFromRequest(header).value);
      && (m.NonUnique? ==> r == Failure(IncorrectResultSize))
      && (m.NoMatch? || (m.Match? && !Live(rs[m.index])) ==> r == Success(None))
    ensures r.Success? && r.value.Some? ==>
      var p := r.value.value;
      && p.details.username in users && p.details.password == users[p.details.username].password
      && users[p.details.username].roles.Some?
      && p.authorities == p.details.authorities == Authorities(users[p.details.username].roles.value)
  {
    var token := GetTokenFromRequest(header);
    var lookup := if token.Some? then MatchToken(rs, token.value) else NoMatch;
    if lookup.NonUnique? then Failure(IncorrectResultSize)
    else if !(token.Some? && lookup.Match? && Live(rs[lookup.index])) then Success(None)
    else
      match JwtTokenProvider.ValidateToken(codec, token.value, now)
      case Failure(e) => Failure(e)
      case Success(valid) =>
        if !valid then Success(None)
        else
          match JwtTokenProvider.ExtractUsername(codec, token.value, now)
          case Failure(e) => Failure(e)
          case Success(username) =>
            match LoadUserByUsername(users, username)
            case Failure(e) => Failure(e)
            case Success(details) => Success(Some(Principal(details, details.authorities)))
  }

  /** The principal a request ends up with: exceptions are caught and leave it unauthenticated. */
  function ResolvedPrincipal(header: Option<string>, rs: seq<TokenRecord>, users: map<string, User>,
                             codec: Codec, now: int): (r: Option<Principal>)
    requires forall e :: e in users ==> users[e].email == e
    ensures r.Some? ==>
      && GetTokenFromRequest(header).Some?
      && MatchToken(rs, GetTokenFromRequest(header).value).Match?
      && Live(rs[MatchToken(rs, GetTokenFromRequest(header).value).index])
      && r.value.details.username in users
      && users[r.value.details.username].roles.Some?
      && r.value.authorities == Authorities(users[r.value.details.username].roles.value)
  {
    match Authentication(header, rs, users, codec, now)
    case Success(p) => p
    case Failure(_) => None
  }

  /**
   * A request gets a principal exactly when it carries a bearer token, one live
   * registry record holds that token, the token validates, and its subject is a
   * stored user with roles; the principal then has that user's email, password
   * hash and role authorities.
   */
  lemma AcceptanceConditions(header: Option<string>, rs: seq<TokenRecord>, users: map<string, User>,
                             codec: Codec, now: int)
    requires forall e :: e in users ==> users[e].email == e
    ensures ResolvedPrincipal(header, rs, users, codec, now).Some? <==>
      var token := GetTokenFromRequest(header);
      && token.Some?
      && MatchToken(rs, token.value).Match?
      && Live(rs[MatchToken(rs, token.value).index])
      && JwtTokenProvider.ValidateToken(codec, token.value, now) == Success(true)
      && var name := JwtTokenProvider.ExtractUsername(codec, token.value, now);
      && name.Success? && name.value.Some? && name.value.value in users
      && users[name.value.value].roles.Some?
    ensures var p := ResolvedPrincipal(header, rs, users, codec, now);
      p.Some? ==>
        var email := JwtTokenProvider.ExtractUsername(codec, GetTokenFromRequest(header).value, now).value.value;
        p.value.details.username == email &&
        p.value.details.password == users[email].password &&
        p.value.authorities == Authorities(users[email].roles.value)
  {
  }

  /** A token with no registry record is never accepted, however it validates. */
  lemma UnknownTokenRejected(token: string, rs: seq<TokenRecord>, users: map<string, User>, codec: Codec, now: int)
    requires forall e :: e in users ==> users[e].email == e
    requires forall k :: 0 <= k < |rs| ==> rs[k].token != token
    ensures ResolvedPrincipal(Some(BearerPrefix + token), rs, users, codec, now).None?
  {
    BearerRoundTrip(token);
  }

  /**
   * Once a record of a token is no longer live, that token is rejected in every
   * later registry state, whatever else has been appended since.
   */
  lemma RevokedTokenStaysRejected(rs: seq<TokenRecord>, rs': seq<TokenRecord>, k: nat,
                                  users: map<string, User>, codec: Codec, now: int)
    requires forall e :: e in users ==> users[e].email == e
    requires Evolves(rs, rs')
    requires k < |rs| && !Live(rs[k])
    ensures ResolvedPrincipal(Some(BearerPrefix + rs[k].token), rs', users, codec, now).None?
  {
    BearerRoundTrip(rs[k].token);
    DeadRecordBlocksToken(rs, rs', k);
  }

  /** The request's security context and the filter chain it is passed along. */
  class RequestContext {
    const authorization: Option<string>
    var authentication: Option<Principal>
    var chainInvocations: nat

    constructor (authorization: Option<string>)
      ensures this.authorization == authorization
      ensures authentication.None? && chainInvocations == 0
    {
      this.authorization := authorization;
      authentication := None;
      chainInvocations := 0;
    }
  }

  class Filter {
    const tokenRepository: TokenRegistry
    const userRepository: UserStore

    constructor (tokenRepository: TokenRegistry, userRepository: UserStore)
      ensures this.tokenRepository == tokenRepository && this.userRepository == userRepository
    {
      this.tokenRepository := tokenRepository;
      this.userRepository := userRepository;
    }

    /**
     * doFilterInternal: sets the resolved principal, if any, leaves the context as
     * it was otherwise, and passes the request on exactly once. Validation and the
     * second parse for the username both read the clock as now.
     */
    method DoFilterInternal(ctx: RequestContext, codec: Codec, now: int)
      requires userRepository.Valid()
      modifies ctx
      ensures ctx.chainInvocations == old(ctx.chainInvocations) + 1
      ensures var p := ResolvedPrincipal(ctx.authorization, tokenRepository.records, userRepository.users, codec, now);
        ctx.authentication == if p.Some? then p else old(ctx.authentication)
    {
      var rs := tokenRepository.records;
      var users := userRepository.users;
      var token := GetTokenFromRequest(ctx.authorization);
      var lookup := if token.Some? then MatchToken(rs, token.value) else NoMatch;
      // a lookup matching several rows throws: caught, nothing is set
      if !lookup.NonUnique? {
        var isValidToken := lookup.Match? && Live(rs[lookup.index]);
        if token.Some? && isValidToken {
          var valid := JwtTokenProvider.ValidateToken(codec, token.value, now);
          if valid == Success(true) {
            var username := JwtTokenProvider.ExtractUsername(codec, token.value, now);
            if username.Success? {
              var details := LoadUserByUsername(users, username.value);
              if details.Success? {
                ctx.authentication := Some(Principal(details.value, details.value.authorities));
              }
            }
          }
        }
      }
      ctx.chainInvocations := ctx.chainInvocations + 1;
    }
  }
}
