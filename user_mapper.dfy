/** The field copies between the user entity and the two DTOs. */
module UserMapper {
  import opened Outcomes
  import opened Entities

  /** toUserDTO: the projection returned to clients. */
  function ToUserView(u: User): (v: UserView)
    ensures v.id == u.id && v.username == u.username && v.email == u.email && v.roles == u.roles
  {
    UserView(u.id, u.username, u.email, u.roles)
  }

  /** toUser: a new, unsaved entity built from a registration request. */
  function ToUser(dto: UserCreation): (u: User)
    ensures u.id.None?
    ensures u.username == dto.username && u.email == dto.email && u.password == dto.password && u.roles == dto.roles
  {
    User(None, dto.username, dto.email, dto.password, dto.roles)
  }

  /** The projection keeps id, username, email and roles, and does not depend on the password. */
  lemma ViewHidesPassword(u: User, password: string)
    ensures ToUserView(u) == ToUserView(u.(password := password))
    ensures ToUserView(u).id == u.id && ToUserView(u).username == u.username
    ensures ToUserView(u).email == u.email && ToUserView(u).roles == u.roles
  {
  }

  /** toUser copies every request field, the raw password included, and leaves the id unset. */
  lemma NewUserFromRequest(dto: UserCreation)
    ensures ToUser(dto).id.None?
    ensures ToUser(dto).username == dto.username && ToUser(dto).email == dto.email
    ensures ToUser(dto).password == dto.password && ToUser(dto).roles == dto.roles
  {
  }

  /** Mapping a request to an entity and back to the projection keeps username, email and roles. */
  lemma RequestToView(dto: UserCreation)
    ensures ToUserView(ToUser(dto)) == UserView(None, dto.username, dto.email, dto.roles)
  {
  }
}
