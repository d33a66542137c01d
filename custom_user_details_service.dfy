/** The user-details lookup of the authentication filter: a user by email, with role authorities. */
module CustomUserDetailsService {
  import opened Outcomes
  import opened Entities

  /** Role.name(). */
  function RoleName(r: Role): string
  {
    match r
    case USER => "USER"
    case ADMIN => "ADMIN"
    case MODERATOR => "MODERATOR"
  }

  /** The granted authority of a role: "ROLE_" followed by its name. */
  function Authority(r: Role): (a: string)
    ensures |a| > 5 && a[..5] == "ROLE_" && a[5..] == RoleName(r)
  {
    var a := "ROLE_" + RoleName(r);
    assert a[5..] == RoleName(r);
    a
  }

  /** Distinct roles have distinct authorities: the role names differ in length. */
  lemma AuthorityInjective()
    ensures forall r, r' :: Authority(r) == Authority(r') ==> r == r'
  {
    forall r, r' | Authority(r) == Authority(r') ensures r == r' {
      assert RoleName(r) == Authority(r)[5..] == Authority(r')[5..] == RoleName(r');
    }
  }

  /** The authorities of a role set: a role's authority is granted exactly when the role is held. */
  function Authorities(roles: set<Role>): (r: set<string>)
    ensures forall role :: Authority(role) in r <==> role in roles
    ensures forall a :: a in r ==> |a| > 5 && a[..5] == "ROLE_"
  {
    AuthorityInjective();
    set role | role in roles :: Authority(role)
  }

  /** The authority set is as large as the role set. */
  lemma {:induction false} AuthoritiesSize(roles: set<Role>)
    ensures |Authorities(roles)| == |roles|
  {
    if roles != {} {
      var r :| r in roles;
      var rest := roles - {r};
      AuthoritiesSize(rest);
      assert Authorities(roles) == Authorities(rest) + {Authority(r)};
    }
  }

  /** What the lookup hands to the framework: username, password hash and authorities. */
  datatype UserDetails = UserDetails(username: string, password: string, authorities: set<string>)

  /**
   * loadUserByUsername: throws "not found" when no user has the email (a null
   * email included), and dereferences the role set without a null check.
   */
  function LoadUserByUsername(users: map<string, User>, email: Option<string>): (r: Result<UserDetails>)
    requires forall e :: e in users ==> users[e].email == e
    ensures r.Failure? && r.error.UsernameNotFound? <==> email.None? || email.value !in users
    ensures r.Success? ==> email.Some? && email.value in users && users[email.value].roles.Some?
    ensures r.Success? ==>
      && r.value.username == email.value && r.value.password == users[email.value].password
      && r.value.authorities == Authorities(users[email.value].roles.value)
  {
    match email
    case None => Failure(UsernameNotFound("User not found with email: null"))
    case Some(e) =>
      if e !in users then Failure(UsernameNotFound("User not found with email: " + e))
      else
        var user := users[e];
        match user.roles
        case None => Failure(NullPointer)
        case Some(roles) => Success(UserDetails(user.email, user.password, Authorities(roles)))
  }

  /**
   * For a stored user with roles, the details carry the email as username, the
   * stored hash as password, and one authority per role and no other.
   */
  lemma LoadedDetails(users: map<string, User>, email: string)
    requires forall e :: e in users ==> users[e].email == e
    requires email in users && users[email].roles.Some?
    ensures var r := LoadUserByUsername(users, Some(email));
      r.Success? && r.value.username == email && r.value.password == users[email].password &&
      (forall role :: Authority(role) in r.value.authorities <==> role in users[email].roles.value) &&
      |r.value.authorities| == |users[email].roles.value|
  {
    AuthoritiesSize(users[email].roles.value);
  }
}
