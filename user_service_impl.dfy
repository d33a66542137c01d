/**
 * The user service: registration, login and lookups over the user store and the
 * token registry. Registration stores the user and one live token; login revokes
 * every token the valid-token query returns for the user and stores a new live
 * one, so a user holds at most one live token.
 */
module UserService {
  import opened Outcomes
  import opened Entities
  import opened PasswordEncoding
  import opened JwtCodec
  import opened TokenRepository
  import opened UserRepository
  import opened UserMapper
  import opened CustomUserDetailsService
  import opened JwtAuthenticationFilter
  import JwtTokenProvider

  const EmailExists := "Email already exists!"
  const InvalidCredentials := "Invalid email or password!"
  const UserNotFound := "User not found!"

  /** The user registration builds: the mapped request, its password encoded, USER when no role is given. */
  function NewUser(dto: UserCreation, encoder: PasswordEncoder): (u: User)
    ensures u.id.None? && u.username == dto.username && u.email == dto.email
    ensures u.password == encoder.encode(dto.password)
    ensures u.roles.Some? && u.roles.value != {}
    ensures dto.roles.Some? && dto.roles.value != {} ==> u.roles == dto.roles
    ensures dto.roles.None? || dto.roles.value == {} ==> u.roles == Some({USER})
  {
    var user := ToUser(dto).(password := encoder.encode(dto.password));
    if user.roles.None? || user.roles.value == {} then user.(roles := Some({USER})) else user
  }

  /** The record saveUserToken stores: a live bearer token of the user. */
  function LiveRecord(token: string, userId: nat): (r: TokenRecord)
    ensures Live(r) && r.expired == r.revoked && r.token == token && r.userId == userId
  {
    TokenRecord(token, BEARER, false, false, userId)
  }

  /** The login check: a stored user with this email whose stored hash matches the password. */
  predicate CredentialsMatch(users: map<string, User>, email: string, password: string, encoder: PasswordEncoder)
  {
    email in users && encoder.matches(password, users[email].password)
  }

  /** revokeAllUserTokens: every record the valid-token query returns for the user, with both flags set. */
  function RevokedForUser(rs: seq<TokenRecord>, userId: nat): (r: seq<TokenRecord>)
    ensures |r| == |rs|
  {
    seq(|rs|, k requires 0 <= k < |rs| => if SelectedAsWritten(rs[k], userId) then Revoke(rs[k]) else rs[k])
  }

  /** The revoked copies revokeAllUserTokens hands to saveAll, in query order. */
  function RevokedCopies(rs: seq<TokenRecord>, ps: seq<nat>): (r: seq<TokenRecord>)
    requires forall j :: 0 <= j < |ps| ==> ps[j] < |rs|
    ensures |r| == |ps|
  {
    seq(|ps|, j requires 0 <= j < |ps| => Revoke(rs[ps[j]]))
  }

  /** The registry calls of revokeAllUserTokens: the query, then saveAll only when it found something. */
  function RevokeCalls(rs: seq<TokenRecord>, userId: nat): (r: seq<Call>)
    ensures 1 <= |r| <= 2 && r[0] == FindAllValidTokensCall(userId)
    ensures |r| == 1 <==> ValidTokens(rs, userId) == []
    ensures |r| == 2 ==>
      r[1].SaveAllCall? && |r[1].records| == |ValidTokens(rs, userId)| &&
      forall j :: 0 <= j < |r[1].records| ==> r[1].records[j] == Revoke(rs[ValidTokens(rs, userId)[j]])
  {
    var ps := ValidTokens(rs, userId);
    [FindAllValidTokensCall(userId)] + if ps == [] then [] else [SaveAllCall(RevokedCopies(rs, ps))]
  }

  /**
   * Saving the revoked copies over the query's positions yields exactly the
   * registry with the user's selected records revoked; an empty query result
   * means there is nothing to revoke.
   */
  lemma RevokeIsOverwrite(rs: seq<TokenRecord>, userId: nat)
    ensures var ps := ValidTokens(rs, userId);
      Overwrite(rs, ps, RevokedCopies(rs, ps)) == RevokedForUser(rs, userId)
    ensures ValidTokens(rs, userId) == [] ==> RevokedForUser(rs, userId) == rs
  {
    var ps := ValidTokens(rs, userId);
    var us := RevokedCopies(rs, ps);
    OverwriteAt(rs, ps, us);
    forall k | 0 <= k < |rs| ensures Overwrite(rs, ps, us)[k] == RevokedForUser(rs, userId)[k] {
      if k in ps {
        var j :| 0 <= j < |ps| && ps[j] == k;
      }
    }
  }

  /** The registry after a login of the user with the new token. */
  function LoginRegistry(rs: seq<TokenRecord>, userId: nat, token: string): (r: seq<TokenRecord>)
    ensures |r| == |rs| + 1 && r[|rs|] == LiveRecord(token, userId)
    ensures forall k :: 0 <= k < |r| && r[k].userId == userId && Live(r[k]) ==> k == |rs|
    ensures forall k :: 0 <= k < |rs| && rs[k].userId != userId ==> r[k] == rs[k]
  {
    RevokedForUserEffect(rs, userId);
    RevokedForUser(rs, userId) + [LiveRecord(token, userId)]
  }

  /** The registry invariant of the service: flags agree, one live token per user, owners are assigned ids. */
  ghost predicate RegistryValid(rs: seq<TokenRecord>, nextId: nat)
  {
    FlagsAgree(rs) && AtMostOneLivePerUser(rs) && forall k :: 0 <= k < |rs| ==> rs[k].userId < nextId
  }

  /**
   * Revoking a user's tokens leaves that user no live record, keeps every other
   * user's records as they were, and is a legal evolution of the registry.
   */
  lemma RevokedForUserEffect(rs: seq<TokenRecord>, userId: nat)
    ensures forall k :: 0 <= k < |rs| && rs[k].userId == userId ==> !Live(RevokedForUser(rs, userId)[k])
    ensures forall k :: 0 <= k < |rs| && rs[k].userId != userId ==> RevokedForUser(rs, userId)[k] == rs[k]
    ensures Evolves(rs, RevokedForUser(rs, userId))
    ensures FlagsAgree(rs) ==> FlagsAgree(RevokedForUser(rs, userId))
    ensures LiveCount(RevokedForUser(rs, userId), userId) == 0
  {
    NoLiveCountZero(RevokedForUser(rs, userId), userId);
  }

  /**
   * A login keeps the registry invariant and leaves the user exactly one live
   * token, the new one; other users' records are untouched.
   */
  lemma LoginKeepsSingleLiveToken(rs: seq<TokenRecord>, nextId: nat, userId: nat, token: string)
    requires RegistryValid(rs, nextId) && userId < nextId
    ensures var rs' := LoginRegistry(rs, userId, token);
      && RegistryValid(rs', nextId)
      && LiveCount(rs', userId) == 1
      && Evolves(rs, rs')
      && (forall k :: 0 <= k < |rs| && rs[k].userId != userId ==> rs'[k] == rs[k])
  {
    var revoked := RevokedForUser(rs, userId);
    var rs' := LoginRegistry(rs, userId, token);
    RevokedForUserEffect(rs, userId);
    assert rs'[..|rs'| - 1] == revoked;
    assert forall k :: 0 <= k < |rs| ==> rs'[k] == revoked[k];
  }

  /**
   * A registration keeps the registry invariant: the new user's token is its only
   * live record, because no earlier record names the new id.
   */
  lemma RegistrationKeepsSingleLiveToken(rs: seq<TokenRecord>, nextId: nat, token: string)
    requires RegistryValid(rs, nextId)
    ensures var rs' := rs + [LiveRecord(token, nextId)];
      RegistryValid(rs', nextId + 1) && LiveCount(rs', nextId) == 1 && Evolves(rs, rs')
  {
    var rs' := rs + [LiveRecord(token, nextId)];
    assert rs'[..|rs'| - 1] == rs;
    NoLiveCountZero(rs, nextId);
  }

  /** With a sound encoder, a user can log in with the password given at registration. */
  lemma RegisteredUserCanLogIn(users: map<string, User>, dto: UserCreation, encoder: PasswordEncoder, id: nat)
    requires Sound(encoder)
    ensures CredentialsMatch(users[dto.email := NewUser(dto, encoder).(id := Some(id))], dto.email, dto.password, encoder)
  {
  }

  /**
   * The token a login returns is accepted by the filter until its expiry, with
   * the user's role authorities, provided no earlier record holds the same string.
   */
  lemma LoginTokenAccepted(rs: seq<TokenRecord>, users: map<string, User>, email: string, userId: nat,
                           codec: Codec, now: int, later: int)
    requires RoundTrips(codec)
    requires forall e :: e in users ==> users[e].email == e
    requires email in users && users[email].roles.Some?
    requires forall k :: 0 <= k < |rs| ==> rs[k].token != JwtTokenProvider.GenerateToken(codec, email, now)
    requires later <= now + JwtTokenProvider.LifetimeMillis
    ensures var token := JwtTokenProvider.GenerateToken(codec, email, now);
      var p := ResolvedPrincipal(Some(BearerPrefix + token), LoginRegistry(rs, userId, token), users, codec, later);
      p.Some? && p.value.details.username == email && p.value.authorities == Authorities(users[email].roles.value)
  {
    var token := JwtTokenProvider.GenerateToken(codec, email, now);
    var rs' := LoginRegistry(rs, userId, token);
    BearerRoundTrip(token);
    JwtTokenProvider.FreshTokenValidity(codec, email, now, later);
    JwtTokenProvider.UsernameRoundTrip(codec, email, now, later);
    assert rs'[|rs|].token == token;
    assert forall k :: 0 <= k < |rs| ==> rs'[k].token == rs[k].token;
    assert MatchToken(rs', token) == Match(|rs|);
    AcceptanceConditions(Some(BearerPrefix + token), rs', users, codec, later);
  }

  /**
   * Every token the user held before a login is rejected by the filter after it,
   * in the registry the login leaves and in every later one.
   */
  lemma LoginRevokesEarlierTokens(rs: seq<TokenRecord>, userId: nat, token: string, rs'': seq<TokenRecord>,
                                  k: nat, users: map<string, User>, codec: Codec, now: int)
    requires forall e :: e in users ==> users[e].email == e
    requires k < |rs| && rs[k].userId == userId
    requires Evolves(LoginRegistry(rs, userId, token), rs'')
    ensures ResolvedPrincipal(Some(BearerPrefix + rs[k].token), rs'', users, codec, now).None?
  {
    var revoked := RevokedForUser(rs, userId);
    RevokedForUserEffect(rs, userId);
    assert Evolves(revoked, LoginRegistry(rs, userId, token));
    EvolvesTransitive(revoked, LoginRegistry(rs, userId, token), rs'');
    RevokedTokenStaysRejected(revoked, rs'', k, users, codec, now);
  }

  /**
   * Two logins of the same user at the same clock reading mint the same string:
   * the registry then holds it twice, the lookup matches two rows, and the
   * filter rejects the token the second login returned.
   */
  lemma SameInstantLoginsRejected(rs: seq<TokenRecord>, users: map<string, User>, email: string, userId: nat,
                                  codec: Codec, now: int)
    requires forall e :: e in users ==> users[e].email == e
    ensures var token := JwtTokenProvider.GenerateToken(codec, email, now);
      var twice := LoginRegistry(LoginRegistry(rs, userId, token), userId, token);
      && MatchToken(twice, token).NonUnique?
      && ResolvedPrincipal(Some(BearerPrefix + token), twice, users, codec, now).None?
  {
    var token := JwtTokenProvider.GenerateToken(codec, email, now);
    var once := LoginRegistry(rs, userId, token);
    var twice := LoginRegistry(once, userId, token);
    assert twice[|rs|].token == once[|rs|].token == token;
    assert twice[|rs| + 1].token == token;
    BearerRoundTrip(token);
  }

  /** Users and the registry together: both stores valid, every stored user has roles. */
  ghost predicate StoresValid(userStore: UserStore, registry: TokenRegistry)
    reads userStore, registry
  {
    && userStore.Valid()
    && (forall e :: e in userStore.users ==> userStore.users[e].roles.Some? && userStore.users[e].roles.value != {})
    && RegistryValid(registry.records, userStore.nextId)
  }

  class UserServiceImpl {
    const userRepository: UserStore
    const tokenRepository: TokenRegistry

    ghost predicate Valid()
      reads userRepository, tokenRepository
    {
      StoresValid(userRepository, tokenRepository)
    }

    constructor (userRepository: UserStore, tokenRepository: TokenRegistry)
      requires StoresValid(userRepository, tokenRepository)
      ensures this.userRepository == userRepository && this.tokenRepository == tokenRepository
      ensures Valid()
    {
      this.userRepository := userRepository;
      this.tokenRepository := tokenRepository;
    }

    /**
     * registerUser: refuses a taken email and changes nothing; otherwise stores
     * the new user under a fresh id together with one live token for its email.
     */
    method RegisterUser(dto: UserCreation, encoder: PasswordEncoder, codec: Codec, now: int) returns (r: Result<User>)
      requires Valid()
      modifies userRepository, tokenRepository
      ensures Valid()
      ensures old(dto.email in userRepository.users) ==>
        && r == Failure(IllegalArgument(EmailExists))
        && userRepository.users == old(userRepository.users) && userRepository.nextId == old(userRepository.nextId)
        && tokenRepository.records == old(tokenRepository.records) && tokenRepository.calls == old(tokenRepository.calls)
      ensures old(dto.email !in userRepository.users) ==>
        var saved := NewUser(dto, encoder).(id := Some(old(userRepository.nextId)));
        var record := LiveRecord(JwtTokenProvider.GenerateToken(codec, dto.email, now), old(userRepository.nextId));
        && r == Success(saved)
        && userRepository.users == old(userRepository.users)[dto.email := saved]
        && userRepository.nextId == old(userRepository.nextId) + 1
        && tokenRepository.records == old(tokenRepository.records) + [record]
        && tokenRepository.calls == old(tokenRepository.calls) + [SaveCall(record)]
    {
      var exists_ := userRepository.ExistsByEmail(dto.email);
      if exists_ {
        return Failure(IllegalArgument(EmailExists));
      }
      var user := NewUser(dto, encoder);
      RegistrationKeepsSingleLiveToken(tokenRepository.records, userRepository.nextId,
        JwtTokenProvider.GenerateToken(codec, dto.email, now));
      var savedUser := userRepository.Save(user);
      var jwtToken := JwtTokenProvider.GenerateToken(codec, user.email, now);
      SaveUserToken(savedUser, jwtToken);
      r := Success(savedUser);
    }

    /**
     * authenticate: refuses an unknown email or a password that does not match,
     * changing nothing; otherwise returns a fresh token after revoking the user's
     * earlier tokens and storing the new one.
     */
    method Authenticate(email: string, password: string, encoder: PasswordEncoder, codec: Codec, now: int)
      returns (r: Result<string>)
      requires Valid()
      modifies tokenRepository
      ensures Valid()
      ensures r.Success? <==> CredentialsMatch(userRepository.users, email, password, encoder)
      ensures r.Failure? ==>
        && r.error == IllegalArgument(InvalidCredentials)
        && tokenRepository.records == old(tokenRepository.records) && tokenRepository.calls == old(tokenRepository.calls)
      ensures r.Success? ==>
        var userId := userRepository.users[email].id.value;
        && r.value == JwtTokenProvider.GenerateToken(codec, email, now)
        && tokenRepository.records == LoginRegistry(old(tokenRepository.records), userId, r.value)
        && tokenRepository.calls ==
             old(tokenRepository.calls) + RevokeCalls(old(tokenRepository.records), userId) + [SaveCall(LiveRecord(r.value, userId))]
    {
      var userOptional := userRepository.FindByEmail(email);
      if userOptional.None? || !encoder.matches(password, userOptional.value.password) {
        return Failure(IllegalArgument(InvalidCredentials));
      }
      var user := userOptional.value;
      var jwtToken := JwtTokenProvider.GenerateToken(codec, user.email, now);
      LoginKeepsSingleLiveToken(tokenRepository.records, userRepository.nextId, user.id.value, jwtToken);
      RevokeAllUserTokens(user);
      SaveUserToken(user, jwtToken);
      r := Success(jwtToken);
    }

    /** saveUserToken: appends a live bearer record of the user. */
    method SaveUserToken(user: User, jwtToken: string)
      requires user.id.Some?
      modifies tokenRepository
      ensures tokenRepository.records == old(tokenRepository.records) + [LiveRecord(jwtToken, user.id.value)]
      ensures tokenRepository.calls == old(tokenRepository.calls) + [SaveCall(LiveRecord(jwtToken, user.id.value))]
    {
      tokenRepository.Insert(LiveRecord(jwtToken, user.id.value));
    }

    /**
     * revokeAllUserTokens: sets both flags on every record the valid-token query
     * returns for the user and saves them in one call, or returns after the query
     * when it finds nothing.
     */
    method RevokeAllUserTokens(user: User)
      requires user.id.Some?
      modifies tokenRepository
      ensures tokenRepository.records == RevokedForUser(old(tokenRepository.records), user.id.value)
      ensures tokenRepository.calls == old(tokenRepository.calls) + RevokeCalls(old(tokenRepository.records), user.id.value)
    {
      var userId := user.id.value;
      var rs := tokenRepository.records;
      var validUserTokens := tokenRepository.FindAllValidTokensByUserId(userId);
      if |validUserTokens| == 0 {
        RevokeIsOverwrite(rs, userId);
        return;
      }
      var updated: seq<TokenRecord> := [];
      // the loop only builds the revoked copies; the registry is written once, after it
      for j := 0 to |validUserTokens|
        invariant |updated| == j
        invariant forall i :: 0 <= i < j ==> updated[i] == Revoke(rs[validUserTokens[i]])
      {
        updated := updated + [Revoke(rs[validUserTokens[j]])];
      }
      assert updated == RevokedCopies(rs, validUserTokens);
      tokenRepository.SaveAll(validUserTokens, updated);
      RevokeIsOverwrite(rs, userId);
    }

    /** findByUserId: the user with this id, or "User not found!". */
    method FindByUserId(userId: nat) returns (r: Result<User>)
      requires Valid()
      ensures r.Success? <==> HasId(userRepository.users, userId)
      ensures r.Success? ==>
        r.value.id == Some(userId) && r.value.email in userRepository.users && userRepository.users[r.value.email] == r.value
      ensures r.Failure? ==> r.error == IllegalArgument(UserNotFound)
    {
      var found := userRepository.FindById(userId);
      r := if found.Some? then Success(found.value) else Failure(IllegalArgument(UserNotFound));
    }

    /** findByEmail: the user with this email, or "User not found!". */
    method FindByEmail(email: string) returns (r: Result<User>)
      requires Valid()
      ensures r.Success? <==> email in userRepository.users
      ensures r.Success? ==> r.value == userRepository.users[email] && r.value.email == email
      ensures r.Failure? ==> r.error == IllegalArgument(UserNotFound)
    {
      var found := userRepository.FindByEmail(email);
      r := if found.Some? then Success(found.value) else Failure(IllegalArgument(UserNotFound));
    }

    /** findAll: every stored user, each with an id and at least one role. */
    method FindAll() returns (r: set<User>)
      requires Valid()
      ensures forall u :: u in r <==> u.email in userRepository.users && userRepository.users[u.email] == u
      ensures forall u :: u in r ==> u.id.Some? && u.roles.Some? && u.roles.value != {}
    {
      r := userRepository.FindAll();
    }
  }
}
