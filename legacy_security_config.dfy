/** The earlier rule table of the rbac-project tree, decided by the same first-match scheme. */
module LegacySecurityConfig {
  import opened Outcomes
  import opened Entities
  import SecurityConfig

  const Rules: seq<SecurityConfig.Rule> := [
    SecurityConfig.Rule("/api/v1/public", SecurityConfig.PermitAll),
    SecurityConfig.Rule("/api/v1/admin", SecurityConfig.HasAnyRole({ADMIN})),
    SecurityConfig.Rule("/api/v1/moderator", SecurityConfig.HasAnyRole({MODERATOR, ADMIN})),
    SecurityConfig.Rule("/api/v1/user", SecurityConfig.HasAnyRole({USER, MODERATOR, ADMIN}))
  ]

  const LogoutUrl := "/api/v1/public/logout"

  /** The earlier decision: anonymous callers pass exactly on the public paths. */
  predicate Authorize(path: string, caller: Option<set<string>>): (r: bool)
    ensures caller.None? ==> (r <==> SecurityConfig.Matches(SecurityConfig.PublicBase, path))
  {
    assert Rules == SecurityConfig.Rules;
    assert SecurityConfig.Authorize(path, caller) == SecurityConfig.Permits(SecurityConfig.PolicyFor(Rules, path), caller);
    SecurityConfig.Permits(SecurityConfig.PolicyFor(Rules, path), caller)
  }

  /**
   * The earlier table decides every path and caller as the current one does, so
   * the public, admin, moderator, user and fallback rules all carry over; its
   * logout URL is the same public one.
   */
  lemma SameDecisions(path: string, caller: Option<set<string>>)
    ensures Authorize(path, caller) == SecurityConfig.Authorize(path, caller)
    ensures LogoutUrl == SecurityConfig.LogoutUrl && Authorize(LogoutUrl, caller)
  {
    SecurityConfig.LogoutIsPublic(caller);
  }
}
