# Role-based access control: authentication state machine

This project models the authentication and token-revocation core of a Spring
service for role-based access control, and proves properties of that model.
The core has six parts:

- **Identity service.** Users register and receive a signed bearer token. Logging
  in revokes the user's earlier tokens and issues a new one. Logging out revokes
  the token the request carries.
- **Token registry.** It stores every issued token with its `expired` and
  `revoked` flags. A per-request filter accepts a token only when the registry
  holds it live and its expiry has not passed. The accepted request then carries
  the user's role authorities (`"ROLE_" + name`).
- **Authorization table.** A fixed rule table decides each path:
  - `/api/v1/public/**` is open to everyone;
  - `/api/v1/admin/**` needs ADMIN;
  - `/api/v1/moderator/**` needs MODERATOR or ADMIN;
  - `/api/v1/user/**` needs any of the three roles;
  - every other path needs an authenticated caller.
- **Token provider.** It builds the `sub`, `iat` and `exp` claims of RFC 7519
  (sections 4.1.2, 4.1.6 and 4.1.4) with a one-hour lifetime. The JWT library's
  parser already refuses a token whose expiry is strictly before now. Taken at a
  single instant, the provider's own expiry test therefore never answers
  "expired", and validation either answers true or throws.
- **Small pure helpers.** The registration request's validation rules and the
  entity/view mapper.
- **The earlier `rbac-project/` variant.** It declares a token registry, but its
  user service never calls it, so a login cannot take back an earlier token. Its
  token provider has no guard for a missing expiry.

The stores are classes with `seq`/`map` fields, and their methods update them in place:
- **`UserRepository.UserStore`** holds the users, keyed by email, and assigns ids.
- **`TokenRepository.TokenRegistry`** holds the token records and a log of every
  call made to it.

A record's position in the registry stands for its row id. Java exceptions are
`Failure` values of a `Result`. The signed-token codec is an opaque `mint`/`parse`
pair. Proofs that need a codec whose `parse` undoes `mint` take that as a
hypothesis (`JwtCodec.RoundTrips`). The password encoder is an opaque
`encode`/`matches` pair in the same way (`PasswordEncoding.Sound`). The clock is a
parameter, in milliseconds.

The invariants behind the main results:
- every write path sets `expired` and `revoked` together (`FlagsAgree`). Under
  that, the valid-token query's `expired = false OR revoked = false` selects
  exactly the live records;
- every user has at most one live record (`AtMostOneLivePerUser`). Registration,
  login and logout all preserve it.

Registry rows are only appended or have their flags set, and a dead row stays
dead (`Evolves`). So a token revoked by a logout or by a later login is rejected by
the filter in every later state.

## Model

| member | source | states |
|---|---|---|
| Entities.Revoke | src/main/java/com/debankar/rbac_project/service/LogoutService.java:39-40 | the revoked record is not live and has both flags set; its token, owner and type are kept |
| TokenRepository.ValidTokens | src/main/java/com/debankar/rbac_project/repository/TokenRepository.java:20-26 | the query returns exactly the positions of the user's records with `expired = false OR revoked = false`, in order, all in range |
| TokenRepository.Positions | src/main/java/com/debankar/rbac_project/repository/TokenRepository.java:20-26 | a position is selected iff it is below the bound and its record satisfies the predicate; the positions increase strictly |
| TokenRepository.QueryMeansLive | src/main/java/com/debankar/rbac_project/repository/TokenRepository.java:16-24 | when the two flags agree on every record, the OR query returns exactly the user's records that are neither expired nor revoked, as its comment says |
| TokenRepository.HalfRevokedIsSelected | src/main/java/com/debankar/rbac_project/repository/TokenRepository.java:24 | without that invariant the OR query also returns a record that is expired but not revoked, which is not live |
| TokenRepository.MatchToken | src/main/java/com/debankar/rbac_project/repository/TokenRepository.java:33 | findByToken: nothing iff no record holds the string; a match is a record holding it and the only one; a non-unique result iff two records hold it |
| TokenRepository.MatchTokenIgnoresFlags | src/main/java/com/debankar/rbac_project/repository/TokenRepository.java:33 | registries with the same token strings at each position give the same lookup, whatever their flags |
| TokenRepository.SameTokensSamePositions | src/main/java/com/debankar/rbac_project/repository/TokenRepository.java:33 | a predicate that agrees on two registries selects the same positions in both |
| TokenRepository.AtMostOneLiveCount | src/main/java/com/debankar/rbac_project/service/UserServiceImpl.java:77-78 | under the one-live-token-per-user invariant, each user has at most one live record |
| TokenRepository.NoLiveBefore | src/main/java/com/debankar/rbac_project/service/UserServiceImpl.java:77-78 | when the last record is the user's live one, no earlier record of that user is live |
| TokenRepository.NoLiveCountZero | src/main/java/com/debankar/rbac_project/service/UserServiceImpl.java:96-110 | a user with no live record has a live count of zero |
| TokenRepository.EvolvesTransitive | src/main/java/com/debankar/rbac_project/entity/token/Token.java:18-38 | two legal registry evolutions in a row form one |
| TokenRepository.DeadRecordBlocksToken | src/main/java/com/debankar/rbac_project/security/JwtAuthenticationFilter.java:51-53 | once a record is not live, no later registry state yields a live match for its token |
| TokenRepository.Overwrite | src/main/java/com/debankar/rbac_project/service/UserServiceImpl.java:109 | a bulk save of rows read earlier keeps the registry's length |
| TokenRepository.OverwriteAt | src/main/java/com/debankar/rbac_project/service/UserServiceImpl.java:109 | after a bulk save each listed row holds its new value and every other row is unchanged |
| TokenRepository.TokenRegistry.constructor | src/main/java/com/debankar/rbac_project/entity/token/Token.java:18-38 | an empty registry with an empty call log |
| TokenRepository.TokenRegistry.FindByToken | src/main/java/com/debankar/rbac_project/repository/TokenRepository.java:33 | returns the lookup, logs one call, and leaves the records unchanged |
| TokenRepository.TokenRegistry.FindAllValidTokensByUserId | src/main/java/com/debankar/rbac_project/repository/TokenRepository.java:20-26 | returns the query's positions, logs one call, and leaves the records unchanged |
| TokenRepository.TokenRegistry.Insert | src/main/java/com/debankar/rbac_project/service/UserServiceImpl.java:93 | appends the record and logs one save of it |
| TokenRepository.TokenRegistry.Update | src/main/java/com/debankar/rbac_project/service/LogoutService.java:42 | replaces one row and logs one save of the new value |
| TokenRepository.TokenRegistry.SaveAll | src/main/java/com/debankar/rbac_project/service/UserServiceImpl.java:109 | writes each listed row with its new value and logs one bulk save |
| UserRepository.UserStore.constructor | src/main/java/com/debankar/rbac_project/repository/UserRepository.java:15 | an empty, valid store whose first id is 1 |
| UserRepository.UserStore.ExistsByEmail | src/main/java/com/debankar/rbac_project/repository/UserRepository.java:27 | true iff a user with that email is stored |
| UserRepository.UserStore.FindByEmail | src/main/java/com/debankar/rbac_project/repository/UserRepository.java:21 | the user with that email iff one is stored |
| UserRepository.UserStore.FindById | src/main/java/com/debankar/rbac_project/service/UserServiceImpl.java:114 | the user with that id iff one is stored |
| UserRepository.UserStore.FindAll | src/main/java/com/debankar/rbac_project/service/UserServiceImpl.java:126 | exactly the stored users |
| UserRepository.UserStore.Save | src/main/java/com/debankar/rbac_project/service/UserServiceImpl.java:56 | the new user gets the next id and is filed under its email; the store stays valid and ids stay distinct |
| UserService.NewUser | src/main/java/com/debankar/rbac_project/service/UserServiceImpl.java:48-54 | the registered user has no id yet, keeps the request's name and email and stores `encode(raw)`; it gets the requested roles, or `{USER}` when they are absent or empty, so its roles are never empty |
| UserService.LiveRecord | src/main/java/com/debankar/rbac_project/service/UserServiceImpl.java:84-94 | the stored token record is live, its flags agree, and it holds the token and the user's id |
| UserService.RevokedForUser | src/main/java/com/debankar/rbac_project/service/UserServiceImpl.java:96-110 | revoking keeps the registry's length |
| UserService.RevokedCopies | src/main/java/com/debankar/rbac_project/service/UserServiceImpl.java:104-107 | one revoked copy per position the query returned |
| UserService.RevokeCalls | src/main/java/com/debankar/rbac_project/service/UserServiceImpl.java:96-110 | revoking first issues the valid-token query for the user; it issues one bulk save iff the query returned something, and that save holds one revoked copy of each returned record, in query order |
| UserService.LoginRegistry | src/main/java/com/debankar/rbac_project/service/UserServiceImpl.java:76-78 | after a login the registry is one record longer; the new last record is the live token of the user, the only live record the user has; other users' records are unchanged |
| UserService.RevokeIsOverwrite | src/main/java/com/debankar/rbac_project/service/UserServiceImpl.java:98-109 | bulk-saving the revoked copies over the query's rows is exactly revoking the user's selected records; an empty query result leaves nothing to revoke |
| UserService.RevokedForUserEffect | src/main/java/com/debankar/rbac_project/service/UserServiceImpl.java:96-110 | afterwards the user has no live record; other users' records are unchanged; flag agreement is kept; the change is a legal evolution |
| UserService.LoginKeepsSingleLiveToken | src/main/java/com/debankar/rbac_project/service/UserServiceImpl.java:76-80 | a login keeps the registry invariant and leaves the user exactly one live token; other users' records are untouched; the change is a legal evolution |
| UserService.RegistrationKeepsSingleLiveToken | src/main/java/com/debankar/rbac_project/service/UserServiceImpl.java:56-60 | a registration keeps the registry invariant, and the new user has exactly one live token |
| UserService.RegisteredUserCanLogIn | src/main/java/com/debankar/rbac_project/service/UserServiceImpl.java:48-71 | with a sound encoder, the password given at registration passes the login check |
| UserService.LoginTokenAccepted | src/main/java/com/debankar/rbac_project/service/UserServiceImpl.java:76-80 | the token a login returns is accepted by the filter until its expiry, with the user's email and role authorities |
| UserService.LoginRevokesEarlierTokens | src/main/java/com/debankar/rbac_project/service/UserServiceImpl.java:77 | every token the user held before a login is rejected by the filter after it, and in every later state |
| UserService.SameInstantLoginsRejected | src/main/java/com/debankar/rbac_project/service/UserServiceImpl.java:76-78 | two logins of one user at the same clock reading leave two records with the same string, and the filter rejects that token; as the library writes whole seconds, any two logins within the same second do so |
| UserService.UserServiceImpl.constructor | src/main/java/com/debankar/rbac_project/service/UserServiceImpl.java:32-38 | a service over consistent stores is valid |
| UserService.UserServiceImpl.RegisterUser | src/main/java/com/debankar/rbac_project/service/UserServiceImpl.java:41-63 | a taken email fails with "Email already exists!" and nothing changes. Otherwise exactly one user is saved under the next id, and exactly one live BEARER record holding `generateToken(email)` is appended. The invariants are kept |
| UserService.UserServiceImpl.Authenticate | src/main/java/com/debankar/rbac_project/service/UserServiceImpl.java:65-81 | succeeds iff the email is stored and the password matches its hash. Otherwise it fails with "Invalid email or password!" and makes no registry call. On success it returns `generateToken(email)`, revokes the user's selected records, appends the new live record, and makes exactly the query, bulk-save and save calls. The invariants are kept |
| UserService.UserServiceImpl.SaveUserToken | src/main/java/com/debankar/rbac_project/service/UserServiceImpl.java:84-94 | appends one live BEARER record of the user and logs one save |
| UserService.UserServiceImpl.RevokeAllUserTokens | src/main/java/com/debankar/rbac_project/service/UserServiceImpl.java:96-110 | sets both flags on exactly the records the query returns, in one bulk save; with no record selected it only queries and writes nothing |
| UserService.UserServiceImpl.FindByUserId | src/main/java/com/debankar/rbac_project/service/UserServiceImpl.java:112-116 | returns the user with that id, or fails with "User not found!" exactly when none exists; changes nothing |
| UserService.UserServiceImpl.FindByEmail | src/main/java/com/debankar/rbac_project/service/UserServiceImpl.java:118-122 | returns the user with that email, or fails with "User not found!" exactly when none exists; changes nothing |
| UserService.UserServiceImpl.FindAll | src/main/java/com/debankar/rbac_project/service/UserServiceImpl.java:124-127 | exactly the stored users, each with an id and at least one role |
| Logout.LogoutEffect | src/main/java/com/debankar/rbac_project/service/LogoutService.java:29-43 | a logout keeps the registry's length, and a record it changes is the revoked copy of a record holding the request's bearer token |
| Logout.LogoutCalls | src/main/java/com/debankar/rbac_project/service/LogoutService.java:29-43 | no registry call iff the header carries no bearer token; otherwise a lookup of that token first, and at most one save after it, of the revoked record the lookup matched |
| Logout.LogoutOutcome | src/main/java/com/debankar/rbac_project/service/LogoutService.java:33-34 | a logout fails iff its bearer token is held by two or more records, and then with the non-unique-result error |
| Logout.MalformedHeaderIgnored | src/main/java/com/debankar/rbac_project/service/LogoutService.java:29-31 | without a "Bearer " header there is no registry call, no change and no error |
| Logout.LogoutRevokesOnlyItsRecord | src/main/java/com/debankar/rbac_project/service/LogoutService.java:33-43 | the looked-up token is the header minus its 7-character prefix. A matching record ends not live and is the only one changed and saved. With no match nothing is saved. A non-unique match throws |
| Logout.LogoutNeverFails | src/main/java/com/debankar/rbac_project/service/LogoutService.java:24-44 | when the stored token strings are distinct, logout ends normally for every header |
| Logout.LogoutIdempotent | src/main/java/com/debankar/rbac_project/service/LogoutService.java:39-42 | a second logout with the same header leaves the same registry and ends the same way, repeating the same lookup and save |
| Logout.LogoutKeepsInvariants | src/main/java/com/debankar/rbac_project/service/LogoutService.java:36-43 | logout keeps the registry's length, flag agreement and the one-live-token invariant, and is a legal evolution |
| Logout.LoggedOutTokenRejected | src/main/java/com/debankar/rbac_project/service/LogoutService.java:39-40 | after a logout whose token was stored, the filter rejects that header in the resulting and every later registry |
| Logout.LogoutService.constructor | src/main/java/com/debankar/rbac_project/service/LogoutService.java:18-21 | the handler works on the given registry |
| Logout.LogoutService.Logout | src/main/java/com/debankar/rbac_project/service/LogoutService.java:24-44 | the new registry, the calls made and the outcome are those of the logout specification functions, which the lemmas above characterise |
| JwtAuthenticationFilter.GetTokenFromRequest | src/main/java/com/debankar/rbac_project/security/JwtAuthenticationFilter.java:83-89 | a token iff the header is present and starts with "Bearer "; the header is then "Bearer " followed by the token |
| JwtAuthenticationFilter.BearerRoundTrip | src/main/java/com/debankar/rbac_project/security/JwtAuthenticationFilter.java:85-86 | the header built from a token gives that token back |
| JwtAuthenticationFilter.Authentication | src/main/java/com/debankar/rbac_project/security/JwtAuthenticationFilter.java:46-76 | no bearer token, or no live record holding it, sets nothing; a token held by several records throws; a principal that is set is a stored user with roles, with its stored hash and exactly its role authorities |
| JwtAuthenticationFilter.ResolvedPrincipal | src/main/java/com/debankar/rbac_project/security/JwtAuthenticationFilter.java:46-79 | a principal is only ever set for a bearer token that exactly one live record holds, and it carries the role authorities of a stored user |
| JwtAuthenticationFilter.AcceptanceConditions | src/main/java/com/debankar/rbac_project/security/JwtAuthenticationFilter.java:46-76 | a principal is set iff all of these hold: there is a bearer token; one live record holds it; the token validates; its subject is a stored user with roles. The principal then has that email, the stored hash and exactly the role authorities. Every exception leaves none |
| JwtAuthenticationFilter.UnknownTokenRejected | src/main/java/com/debankar/rbac_project/security/JwtAuthenticationFilter.java:51-53 | a token with no registry record is never accepted |
| JwtAuthenticationFilter.RevokedTokenStaysRejected | src/main/java/com/debankar/rbac_project/security/JwtAuthenticationFilter.java:52 | a token whose record is no longer live is rejected in every later registry state |
| JwtAuthenticationFilter.RequestContext.constructor | src/main/java/com/debankar/rbac_project/security/JwtAuthenticationFilter.java:43-45 | a request with its header, no authentication and no chain call yet |
| JwtAuthenticationFilter.Filter.constructor | src/main/java/com/debankar/rbac_project/security/JwtAuthenticationFilter.java:33-40 | the filter reads the given registry and user store |
| JwtAuthenticationFilter.Filter.DoFilterInternal | src/main/java/com/debankar/rbac_project/security/JwtAuthenticationFilter.java:43-80 | passes the request on exactly once, sets the resolved principal when there is one, and otherwise leaves the context as it was |
| CustomUserDetailsService.Authority | src/main/java/com/debankar/rbac_project/service/CustomUserDetailsService.java:36 | a role's authority is "ROLE_" followed by the role's name |
| CustomUserDetailsService.AuthorityInjective | src/main/java/com/debankar/rbac_project/service/CustomUserDetailsService.java:36 | distinct roles give distinct "ROLE_" authorities |
| CustomUserDetailsService.Authorities | src/main/java/com/debankar/rbac_project/service/CustomUserDetailsService.java:35-37 | a role's authority is granted iff the role is held, and every granted authority starts with "ROLE_" |
| CustomUserDetailsService.AuthoritiesSize | src/main/java/com/debankar/rbac_project/service/CustomUserDetailsService.java:35-37 | the authority set is as large as the role set |
| CustomUserDetailsService.LoadUserByUsername | src/main/java/com/debankar/rbac_project/service/CustomUserDetailsService.java:29-45 | "not found" iff the email is absent from the store (a null email included); success only for a stored user with roles, and then the email as username, the stored hash as password and exactly the role authorities |
| CustomUserDetailsService.LoadedDetails | src/main/java/com/debankar/rbac_project/service/CustomUserDetailsService.java:35-44 | the username is the email and the password the stored hash; the authorities are exactly one "ROLE_" string per role |
| SecurityConfig.Matches | src/main/java/com/debankar/rbac_project/config/SecurityConfig.java:42-45 | a path matching a base-plus-wildcard pattern starts with the base, and anything after the base begins with "/" |
| SecurityConfig.PolicyFor | src/main/java/com/debankar/rbac_project/config/SecurityConfig.java:41-46 | the first rule whose pattern matches decides; when no pattern matches, the authenticated-only fallback decides |
| SecurityConfig.Permits | src/main/java/com/debankar/rbac_project/config/SecurityConfig.java:42-46 | an anonymous caller is admitted only by permitAll; under permitAll or authenticated, exactly the anonymous-or-not test applies |
| SecurityConfig.Authorize | src/main/java/com/debankar/rbac_project/config/SecurityConfig.java:41-46 | an anonymous caller is admitted exactly on the public paths; an authenticated caller is admitted on the public paths and on every path no pattern names |
| SecurityConfig.RuleDecides | src/main/java/com/debankar/rbac_project/config/SecurityConfig.java:41-46 | a path a pattern of the table matches is decided by that pattern's policy alone |
| SecurityConfig.HasAnyRoleMeansSharedRole | src/main/java/com/debankar/rbac_project/config/SecurityConfig.java:43-45 | a role-restricted rule admits a user iff the user holds one of its roles, and never an anonymous caller |
| SecurityConfig.MatchFixesNinth | src/main/java/com/debankar/rbac_project/config/SecurityConfig.java:42-45 | a path under one of the bases agrees with it at index 8 |
| SecurityConfig.PatternsDisjoint | src/main/java/com/debankar/rbac_project/config/SecurityConfig.java:42-45 | no path matches two of the four patterns |
| SecurityConfig.FirstMatchIsAnyMatch | src/main/java/com/debankar/rbac_project/config/SecurityConfig.java:41-47 | with pairwise disjoint patterns, the first matching rule is any matching rule |
| SecurityConfig.TableDisjoint | src/main/java/com/debankar/rbac_project/config/SecurityConfig.java:42-45 | the table's patterns are pairwise disjoint |
| SecurityConfig.TableOrderIrrelevant | src/main/java/com/debankar/rbac_project/config/SecurityConfig.java:41-47 | any reordering of the four rules gives every path the same policy |
| SecurityConfig.PublicIsOpen | src/main/java/com/debankar/rbac_project/config/SecurityConfig.java:42 | a public path is allowed for every caller, anonymous included |
| SecurityConfig.AdminRule | src/main/java/com/debankar/rbac_project/config/SecurityConfig.java:43 | an admin path is allowed iff the caller holds ADMIN; anonymous callers are refused |
| SecurityConfig.ModeratorRule | src/main/java/com/debankar/rbac_project/config/SecurityConfig.java:44 | a moderator path is allowed iff the caller holds MODERATOR or ADMIN |
| SecurityConfig.UserRule | src/main/java/com/debankar/rbac_project/config/SecurityConfig.java:45 | a user path is allowed iff the caller holds USER, MODERATOR or ADMIN |
| SecurityConfig.OtherPathsNeedAuthentication | src/main/java/com/debankar/rbac_project/config/SecurityConfig.java:46 | any other path is allowed iff the caller is authenticated |
| SecurityConfig.RolesNested | src/main/java/com/debankar/rbac_project/config/SecurityConfig.java:43-45 | whoever may use an admin path may use a moderator path, and whoever may use a moderator path may use a user path |
| SecurityConfig.LogoutIsPublic | src/main/java/com/debankar/rbac_project/config/SecurityConfig.java:42-52 | the logout URL lies under the public prefix and is allowed for every caller |
| UserMapper.ToUserView | src/main/java/com/debankar/rbac_project/mapper/UserMapper.java:19-27 | the view has the entity's id, username, email and roles |
| UserMapper.ToUser | src/main/java/com/debankar/rbac_project/mapper/UserMapper.java:30-38 | the new entity has no id and the request's username, email, raw password and roles |
| UserMapper.ViewHidesPassword | src/main/java/com/debankar/rbac_project/mapper/UserMapper.java:19-27 | the view copies id, username, email and roles unchanged, and does not depend on the password |
| UserMapper.NewUserFromRequest | src/main/java/com/debankar/rbac_project/mapper/UserMapper.java:30-38 | the entity copies username, email, password and roles and has no id |
| UserMapper.RequestToView | src/main/java/com/debankar/rbac_project/mapper/UserMapper.java:19-38 | mapping a request to an entity and then to a view keeps its username, email and roles |
| UserCreationDto.TrimStart | src/main/java/com/debankar/rbac_project/dto/UserCreationDTO.java:20 | `String.trim`'s front half: the result is a suffix that is empty or starts above U+0020, and every dropped character is at most U+0020 |
| UserCreationDto.TrimEnd | src/main/java/com/debankar/rbac_project/dto/UserCreationDTO.java:20 | `String.trim`'s back half: the result is a prefix that is empty or ends above U+0020, and every dropped character is at most U+0020 |
| UserCreationDto.Trim | src/main/java/com/debankar/rbac_project/dto/UserCreationDTO.java:20 | the trimmed string is no longer than the input and is empty or starts and ends above U+0020 |
| UserCreationDto.TrimKeepsVisible | src/main/java/com/debankar/rbac_project/dto/UserCreationDTO.java:20 | trimming leaves something iff the string holds a character above U+0020 |
| UserCreationDto.NotBlank | src/main/java/com/debankar/rbac_project/dto/UserCreationDTO.java:20 | `@NotBlank` (non-empty after trimming) holds iff the string holds a character above U+0020, for every string |
| UserCreationDto.IsValid | src/main/java/com/debankar/rbac_project/dto/UserCreationDTO.java:19-32 | a valid request has a well-formed email, a username of 2 to 50 characters, a password of at least 8, and none of the three is blank |
| UserCreationDto.BlankPasswordRejected | src/main/java/com/debankar/rbac_project/dto/UserCreationDTO.java:30-32 | an illustration: a password of eight spaces meets the length rule but not the not-blank rule |
| UserCreationDto.RolesUnconstrained | src/main/java/com/debankar/rbac_project/dto/UserCreationDTO.java:35 | validity never depends on the roles, absent or empty included |
| JwtCodec.ParseAt | src/main/java/com/debankar/rbac_project/security/JwtTokenProvider.java:34-40 | the library's parse at a given instant succeeds iff the codec accepts the token and its expiry, if any, is not before that instant; a token the codec accepts fails only as expired |
| JwtCodec.ParseMinted | src/main/java/com/debankar/rbac_project/security/JwtTokenProvider.java:34-40 | with a round-tripping codec a minted token parses back to its content up to its expiry, and fails as expired after it |
| JwtTokenProvider.CreateToken | src/main/java/com/debankar/rbac_project/security/JwtTokenProvider.java:71-82 | with a round-tripping codec the token carries no header type, the given claims, the subject, issuedAt = now and expiration = now + 3 600 000 |
| JwtTokenProvider.GenerateToken | src/main/java/com/debankar/rbac_project/security/JwtTokenProvider.java:66-69 | with a round-tripping codec the token names the user as subject and carries no custom claim |
| JwtTokenProvider.ExtractAllClaims | src/main/java/com/debankar/rbac_project/security/JwtTokenProvider.java:34-40 | succeeds iff the codec accepts the token and it is not past its expiry, and then gives the token's claims |
| JwtTokenProvider.ExtractUsername | src/main/java/com/debankar/rbac_project/security/JwtTokenProvider.java:43-46 | succeeds exactly when the claims can be read, and then gives the subject claim, absent included |
| JwtTokenProvider.IsTokenExpired | src/main/java/com/debankar/rbac_project/security/JwtTokenProvider.java:59-63 | answers exactly when the claims can be read, and never answers true, because the parser has already refused an expired token |
| JwtTokenProvider.ValidateToken | src/main/java/com/debankar/rbac_project/security/JwtTokenProvider.java:54-57 | never answers false; answers true iff the codec accepts the token and its expiry, if any, is not before now |
| JwtTokenProvider.GeneratedClaims | src/main/java/com/debankar/rbac_project/security/JwtTokenProvider.java:66-82 | up to its expiry a generated token reads back as the subject, no custom claim, issuedAt = now and expiration = now + 3 600 000; after it, reading throws the expired-token error |
| JwtTokenProvider.UsernameRoundTrip | src/main/java/com/debankar/rbac_project/security/JwtTokenProvider.java:43-46 | until it expires, the username extracted from a generated token is the one it was generated for |
| JwtTokenProvider.FreshTokenValidity | src/main/java/com/debankar/rbac_project/security/JwtTokenProvider.java:55-79 | a generated token validates at every instant up to one hour after issue, and validation throws the expired-token error after that |
| JwtTokenProvider.ValidateNegatesExpired | src/main/java/com/debankar/rbac_project/security/JwtTokenProvider.java:55-63 | validateToken is the negation of isTokenExpired, and both throw together; when the test answers, it answers whether the expiry is strictly before now |
| JwtTokenProvider.ValidAtExpiryInstant | src/main/java/com/debankar/rbac_project/security/JwtTokenProvider.java:62 | a token is still valid at its exact expiry instant |
| JwtTokenProvider.MissingExpiryNeverExpires | src/main/java/com/debankar/rbac_project/security/JwtTokenProvider.java:60-63 | a token without an expiry counts as not expired and validates |
| LegacyJwtTokenProvider.CreateToken | rbac-project/src/main/java/com/debankar/rbac_project/security/JwtTokenProvider.java:56-66 | with a round-tripping codec the token carries the "typ: JWT" header, the given claims, the subject, issuedAt from the first clock reading and expiration one hour after the second |
| LegacyJwtTokenProvider.GenerateToken | rbac-project/src/main/java/com/debankar/rbac_project/security/JwtTokenProvider.java:51-54 | with a round-tripping codec the token names the user as subject and carries no custom claim |
| LegacyJwtTokenProvider.ExtractUsername | rbac-project/src/main/java/com/debankar/rbac_project/security/JwtTokenProvider.java:23-26 | succeeds iff the token parses at that instant, and then gives the subject claim; otherwise the parser's error |
| LegacyJwtTokenProvider.IsTokenExpired | rbac-project/src/main/java/com/debankar/rbac_project/security/JwtTokenProvider.java:47-49 | answers iff the token parses and has an expiry; a token without one throws a null-pointer error; it never answers true |
| LegacyJwtTokenProvider.ValidateToken | rbac-project/src/main/java/com/debankar/rbac_project/security/JwtTokenProvider.java:43-45 | never answers false; answers true iff the codec accepts the token and it has an expiry that is not before now |
| LegacyJwtTokenProvider.GeneratedToken | rbac-project/src/main/java/com/debankar/rbac_project/security/JwtTokenProvider.java:51-66 | a generated token has the "typ: JWT" header and the subject; with a clock that does not run backwards, its expiry is at least one hour after its issue time |
| LegacyJwtTokenProvider.ValidateNegatesExpired | rbac-project/src/main/java/com/debankar/rbac_project/security/JwtTokenProvider.java:43-49 | validateToken is the negation of isTokenExpired, and both throw together; when the test answers, the token has an expiry and the answer is whether it is strictly before now |
| LegacyJwtTokenProvider.VariantsOnExpiry | rbac-project/src/main/java/com/debankar/rbac_project/security/JwtTokenProvider.java:47-49 | without an expiry the earlier check throws where the current one accepts; otherwise the two agree |
| LegacySecurityConfig.Authorize | rbac-project/src/main/java/com/debankar/rbac_project/config/SecurityConfig.java:32-38 | an anonymous caller is admitted exactly on the public paths |
| LegacySecurityConfig.SameDecisions | rbac-project/src/main/java/com/debankar/rbac_project/config/SecurityConfig.java:32-43 | every (path, caller) decision equals the current table's, and the logout URL is the same public one |
| LegacyTokenRepository.FindAllValidTokensByUserId | rbac-project/src/main/java/com/debankar/rbac_project/repository/TokenRepository.java:12-18 | exactly the user's records with `expired = false OR revoked = false`; never another user's record |
| LegacyTokenRepository.FindByToken | rbac-project/src/main/java/com/debankar/rbac_project/repository/TokenRepository.java:19 | nothing iff no record holds the string; a match is a record holding it and the only one; a non-unique result iff two records hold it |
| LegacyUserService.EarlierTokenStaysValid | rbac-project/src/main/java/com/debankar/rbac_project/service/UserServiceImpl.java:50-59 | with no registry write, a token from an earlier login still validates after any later login and still names its user, up to one hour after its expiry clock read; after that it is refused as expired |
| LegacyUserService.UserServiceImpl.constructor | rbac-project/src/main/java/com/debankar/rbac_project/service/UserServiceImpl.java:23-28 | a service over a valid store is valid |
| LegacyUserService.UserServiceImpl.RegisterUser | rbac-project/src/main/java/com/debankar/rbac_project/service/UserServiceImpl.java:31-47 | a taken email fails with "Email already exists!" and nothing changes. Otherwise exactly one user is saved: the same user the current service stores. No token is written |
| LegacyUserService.UserServiceImpl.Authenticate | rbac-project/src/main/java/com/debankar/rbac_project/service/UserServiceImpl.java:50-59 | succeeds iff the email is stored and the password matches, else "Invalid email or password!"; it returns the earlier provider's token and changes no state |
| LegacyUserService.UserServiceImpl.FindByUserId | rbac-project/src/main/java/com/debankar/rbac_project/service/UserServiceImpl.java:62-65 | the user with that id, or "User not found!" exactly when none exists |
| LegacyUserService.UserServiceImpl.FindByEmail | rbac-project/src/main/java/com/debankar/rbac_project/service/UserServiceImpl.java:68-71 | the user with that email, or "User not found!" exactly when none exists |
| LegacyUserService.UserServiceImpl.FindAll | rbac-project/src/main/java/com/debankar/rbac_project/service/UserServiceImpl.java:74-76 | exactly the stored users |
| Strings.PrefixRoundTrip | src/main/java/com/debankar/rbac_project/security/JwtAuthenticationFilter.java:85-86 | a string starts with its own prefix, and dropping the prefix gives the rest back |
| Strings.PrefixSplit | src/main/java/com/debankar/rbac_project/service/LogoutService.java:29-33 | a string that starts with a prefix is that prefix followed by the remainder |

## Left out

- **Passwords.** BCrypt hashing is randomized library code. The encoder is an
  uninterpreted `encode`/`matches` pair, and `matches(p, encode(p))` is a
  hypothesis (`PasswordEncoding.Sound`) wherever a proof needs it.
- **Token signing.** jjwt's JWS compact serialisation, base64url and HMAC-SHA256
  are an opaque `mint`/`parse` pair.
- **Token time.** jjwt stores `iat` and `exp` in whole seconds; the model keeps
  milliseconds. Its parser rejects a token whose expiry is before the current
  instant, and the parsers here allow no clock skew; `JwtCodec.ParseAt` models
  that check at the same instant the provider's own test reads, so a token
  exactly at its expiry passes both.
- **The clock.** `new Date()` and `System.currentTimeMillis()` are parameters.
  Both providers read the clock more than once: the library's parser reads its
  own clock, `isTokenExpired` reads `new Date()` again, and the earlier
  provider's `createToken` reads it twice. The model keeps the two readings of
  the earlier `createToken` and merges the others, as the lines below say.
- JwtTokenProvider.IsTokenExpired: the parser's clock and `new Date()` are one
  instant, so the model never answers true. The program answers true for a token
  whose expiry lies between the parser's reading and the later `new Date()`.
- JwtTokenProvider.ValidateToken: for the same reason the model never answers
  false, while the program can, in that interval.
- LegacyJwtTokenProvider.IsTokenExpired: the same single instant as the current
  provider's test, with the same interval left out.
- LegacyJwtTokenProvider.ValidateToken: the same single instant, so the model
  never answers false.
- JwtAuthenticationFilter.Filter.DoFilterInternal: `validateToken` and the second
  parse in `extractUsername` run at one instant `now`. The program can validate
  a token just before its expiry and then throw the expired-token error in the
  second parse, setting no principal where the model sets one.
- **Spring and servlet plumbing.** This covers the thread-local security
  context, `WebAuthenticationDetailsSource`, the authentication manager, the
  session, CSRF and frame-option settings, and the controllers. The filter's
  result is an optional principal on a request-context object.
- **Ant-style path matching** is reduced to `base` and `base/...`. Spring's other
  normalisations (trailing slashes, encoded characters, matrix parameters) are
  not modelled.
- **Persistence.** JPA transactions, lazy loading and concurrent requests are
  not modelled, including the find, revoke, insert race in `authenticate`. The
  stores are sequential objects.
- **The user store** is keyed by email. A second user with the same email
  cannot be stored. Registration checks for that first, so no reachable state
  is lost.
- **Request validation.** The `@Email` grammar is a parameter of
  `UserCreationDto.IsValid`. Null request fields are not modelled. Lengths count
  characters rather than UTF-16 code units.
- **The Spring `User` builder** rejects an empty username, and
  `loadUserByUsername` hands it the email. That check is not modelled.
- **JwtAuthenticationFilter.Filter.DoFilterInternal** reads the registry through
  `MatchToken` without logging a call, because the logged lookup is kept for the
  service methods whose unit tests observe it.
- **Logout.LogoutNeverFails** needs distinct token strings in the registry.
  Nothing in the entity forces that, and a lookup matching two rows throws.
  `UserService.SameInstantLoginsRejected` shows how such duplicates arise.
- **Repeated logout.** A second logout with the same token saves the
  already-revoked record again (`Logout.LogoutIdempotent` states the repeated
  calls). The registry is unchanged by it, but a save is issued, as the code
  does.
- **UserService.LoginTokenAccepted** assumes that no stored record already holds
  the new token, because two logins at the same clock reading mint the same
  string. As the library writes `iat` and `exp` in whole seconds, that holds for
  any two logins of one user within the same second.
- **Record ids** are positions in the registry, and the owner is the user's id
  rather than an object reference.
