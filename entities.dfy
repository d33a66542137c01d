/** The persistent entities, the enums and the two user DTOs. */
module Entities {
  import opened Outcomes

  /** The role enum; the constant names are part of the authority strings. */
  datatype Role = USER | ADMIN | MODERATOR

  /** The only token kind. */
  datatype TokenType = BEARER

  /**
   * The user entity. The id is null until the store assigns one, and the role set
   * may be null on an entity built from a registration request.
   */
  datatype User = User(
    id: Option<nat>,
    username: string,
    email: string,
    password: string,
    roles: Option<set<Role>>)

  /**
   * A token record of the revocation registry. The record's position in the
   * registry stands for its generated id; userId is the owning user's id.
   */
  datatype TokenRecord = TokenRecord(
    token: string,
    tokenType: TokenType,
    expired: bool,
    revoked: bool,
    userId: nat)

  /** The registration request body; roles may be absent. */
  datatype UserCreation = UserCreation(
    username: string,
    email: string,
    password: string,
    roles: Option<set<Role>>)

  /** The user projection returned to clients: it has no password field. */
  datatype UserView = UserView(
    id: Option<nat>,
    username: string,
    email: string,
    roles: Option<set<Role>>)

  /** The filter's acceptance test on a record: neither expired nor revoked. */
  predicate Live(t: TokenRecord)
  {
    !t.expired && !t.revoked
  }

  /** What logout and a later login do to a record: both flags set. */
  function Revoke(t: TokenRecord): (r: TokenRecord)
    ensures !Live(r) && r.expired == r.revoked
    ensures r.token == t.token && r.userId == t.userId && r.tokenType == t.tokenType
  {
    t.(expired := true, revoked := true)
  }
}
