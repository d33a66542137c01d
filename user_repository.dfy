/** The user store: users by email, with ids assigned on insert. */
module UserRepository {
  import opened Outcomes
  import opened Entities

  /** Some stored user has this id. */
  ghost predicate HasId(users: map<string, User>, id: nat)
  {
    exists e :: e in users && users[e].id == Some(id)
  }

  class UserStore {
    /** The stored users, keyed by their email. */
    var users: map<string, User>
    /** The id the next insert receives (an identity column starting at 1). */
    var nextId: nat

    /** Each user is filed under its own email, has an assigned id below nextId, and ids are distinct. */
    ghost predicate Valid()
      reads this
    {
      1 <= nextId &&
      (forall e :: e in users ==> users[e].email == e && users[e].id.Some? && 1 <= users[e].id.value < nextId) &&
      (forall e, e' :: e in users && e' in users && users[e].id == users[e'].id ==> e == e')
    }

    constructor ()
      ensures Valid() && users == map[] && nextId == 1
    {
      users := map[];
      nextId := 1;
    }

    method ExistsByEmail(email: string) returns (b: bool)
      ensures b <==> email in users
    {
      b := email in users;
    }

    method FindByEmail(email: string) returns (r: Option<User>)
      requires Valid()
      ensures r.Some? <==> email in users
      ensures r.Some? ==> r.value == users[email] && r.value.email == email
    {
      r := if email in users then Some(users[email]) else None;
    }

    method FindById(id: nat) returns (r: Option<User>)
      requires Valid()
      ensures r.Some? <==> HasId(users, id)
      ensures r.Some? ==> r.value.id == Some(id) && r.value.email in users && users[r.value.email] == r.value
    {
      if e :| e in users && users[e].id == Some(id) {
        r := Some(users[e]);
      } else {
        r := None;
      }
    }

    method FindAll() returns (r: set<User>)
      requires Valid()
      ensures forall u :: u in r <==> u.email in users && users[u.email] == u
    {
      r := users.Values;
    }

    /** save of a new entity: it receives the next id. */
    method Save(user: User) returns (saved: User)
      requires Valid()
      requires user.id.None? && user.email !in users
      modifies this
      ensures Valid()
      ensures saved == user.(id := Some(old(nextId)))
      ensures users == old(users)[user.email := saved] && nextId == old(nextId) + 1
    {
      saved := user.(id := Some(nextId));
      users := users[user.email := saved];
      nextId := nextId + 1;
    }
  }
}
