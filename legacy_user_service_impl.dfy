/**
 * The earlier user service of the rbac-project tree: registration stores the
 * user but no token, and login only mints a token. Nothing records issued
 * tokens, so a login cannot take back an earlier one.
 */
module LegacyUserService {
  import opened Outcomes
  import opened Entities
  import opened PasswordEncoding
  import opened JwtCodec
  import opened UserRepository
  import opened UserService
  import LegacyJwtTokenProvider
  import JwtTokenProvider

  /**
   * A token from an earlier login still validates after any later login, up to
   * its own expiry: one hour after the clock was read for it. After that the
   * parser refuses it as expired.
   */
  lemma EarlierTokenStaysValid(codec: Codec, email: string, issueRead: int, expiryRead: int, later: int)
    requires RoundTrips(codec)
    ensures LegacyJwtTokenProvider.ValidateToken(codec, LegacyJwtTokenProvider.GenerateToken(codec, email, issueRead, expiryRead), later)
      == if later <= expiryRead + JwtTokenProvider.LifetimeMillis then Success(true) else Failure(ExpiredJwt)
    ensures later <= expiryRead + JwtTokenProvider.LifetimeMillis ==>
      LegacyJwtTokenProvider.ExtractUsername(codec, LegacyJwtTokenProvider.GenerateToken(codec, email, issueRead, expiryRead), later)
        == Success(Some(email))
  {
    var j := Jwt(Some("JWT"), Claims(Some(email), Some(issueRead), Some(expiryRead + JwtTokenProvider.LifetimeMillis), map[]));
    ParseMinted(codec, j, later);
  }

  /** The user store with every stored user holding at least one role. */
  ghost predicate StoreValid(userStore: UserStore)
    reads userStore
  {
    userStore.Valid() &&
    forall e :: e in userStore.users ==> userStore.users[e].roles.Some? && userStore.users[e].roles.value != {}
  }

  class UserServiceImpl {
    const userRepository: UserStore

    ghost predicate Valid()
      reads userRepository
    {
      StoreValid(userRepository)
    }

    constructor (userRepository: UserStore)
      requires StoreValid(userRepository)
      ensures this.userRepository == userRepository && Valid()
    {
      this.userRepository := userRepository;
    }

    /**
     * registerUser: refuses a taken email and changes nothing; otherwise stores
     * the same user the current service stores, and nothing else.
     */
    method RegisterUser(dto: UserCreation, encoder: PasswordEncoder) returns (r: Result<User>)
      requires Valid()
      modifies userRepository
      ensures Valid()
      ensures old(dto.email in userRepository.users) ==>
        && r == Failure(IllegalArgument(EmailExists))
        && userRepository.users == old(userRepository.users) && userRepository.nextId == old(userRepository.nextId)
      ensures old(dto.email !in userRepository.users) ==>
        var saved := NewUser(dto, encoder).(id := Some(old(userRepository.nextId)));
        && r == Success(saved)
        && userRepository.users == old(userRepository.users)[dto.email := saved]
        && userRepository.nextId == old(userRepository.nextId) + 1
    {
      var exists_ := userRepository.ExistsByEmail(dto.email);
      if exists_ {
        return Failure(IllegalArgument(EmailExists));
      }
      var user := NewUser(dto, encoder);
      var savedUser := userRepository.Save(user);
      r := Success(savedUser);
    }

    /**
     * authenticate: refuses an unknown email or a password that does not match;
     * otherwise returns a token for the email. It changes no state.
     */
    method Authenticate(email: string, password: string, encoder: PasswordEncoder, codec: Codec,
                        issueRead: int, expiryRead: int) returns (r: Result<string>)
      requires Valid()
      ensures r.Success? <==> CredentialsMatch(userRepository.users, email, password, encoder)
      ensures r.Failure? ==> r.error == IllegalArgument(InvalidCredentials)
      ensures r.Success? ==> r.value == LegacyJwtTokenProvider.GenerateToken(codec, email, issueRead, expiryRead)
    {
      var userOptional := userRepository.FindByEmail(email);
      if userOptional.None? || !encoder.matches(password, userOptional.value.password) {
        return Failure(IllegalArgument(InvalidCredentials));
      }
      r := Success(LegacyJwtTokenProvider.GenerateToken(codec, userOptional.value.email, issueRead, expiryRead));
    }

    /** findByUserId: the user with this id, or "User not found!". */
    method FindByUserId(userId: nat) returns (r: Result<User>)
      requires Valid()
      ensures r.Success? <==> HasId(userRepository.users, userId)
      ensures r.Success? ==>
        r.value.id == Some(userId) && r.value.email in userRepository.users && userRepository.users[r.value.email] == r.value
      ensures r.Failure? ==> r.error == IllegalArgument(UserNotFound)
    {
      var found := userRepository.FindById(userId);
      r := if found.Some? then Success(found.value) else Failure(IllegalArgument(UserNotFound));
    }

    /** findByEmail: the user with this email, or "User not found!". */
    method FindByEmail(email: string) returns (r: Result<User>)
      requires Valid()
      ensures r.Success? <==> email in userRepository.users
      ensures r.Success? ==> r.value == userRepository.users[email] && r.value.email == email
      ensures r.Failure? ==> r.error == IllegalArgument(UserNotFound)
    {
      var found := userRepository.FindByEmail(email);
      r := if found.Some? then Success(found.value) else Failure(IllegalArgument(UserNotFound));
    }

    /** findAll: every stored user, each with an id and at least one role. */
    method FindAll() returns (r: set<User>)
      requires Valid()
      ensures forall u :: u in r <==> u.email in userRepository.users && userRepository.users[u.email] == u
      ensures forall u :: u in r ==> u.id.Some? && u.roles.Some? && u.roles.value != {}
    {
      r := userRepository.FindAll();
    }
  }
}
