/**
 * The authorization rule table: an ordered list of path patterns and the policy
 * each one demands, the first matching rule deciding, and any other request
 * requiring an authenticated caller.
 */
module SecurityConfig {
  import opened Outcomes
  import opened Entities
  import opened Strings
  import CustomUserDetailsService

  datatype Policy = PermitAll | HasAnyRole(roles: set<Role>) | Authenticated

  /** A rule for the pattern made of base followed by the any-depth wildcard. */
  datatype Rule = Rule(base: string, policy: Policy)

  const PublicBase := "/api/v1/public"
  const AdminBase := "/api/v1/admin"
  const ModeratorBase := "/api/v1/moderator"
  const UserBase := "/api/v1/user"

  const Rules: seq<Rule> := [
    Rule(PublicBase, PermitAll),
    Rule(AdminBase, HasAnyRole({ADMIN})),
    Rule(ModeratorBase, HasAnyRole({MODERATOR, ADMIN})),
    Rule(UserBase, HasAnyRole({USER, MODERATOR, ADMIN}))
  ]

  /** The policy of anyRequest(). */
  const Fallback := Authenticated

  const LogoutUrl := "/api/v1/public/logout"

  /** A base-plus-wildcard pattern matches the base itself and every path below it. */
  predicate Matches(base: string, path: string): (r: bool)
    ensures r ==> StartsWith(path, base)
    ensures r && |path| > |base| ==> path[|base|] == '/'
  {
    if path == base then true
    else if StartsWith(path, base + "/") then
      assert path[..|base|] == path[..|base + "/"|][..|base|];
      assert path[|base|] == path[..|base + "/"|][|base|];
      true
    else false
  }

  /** The policy of the first rule whose pattern matches, else the fallback. */
  function PolicyFor(rules: seq<Rule>, path: string): (r: Policy)
    ensures forall k :: 0 <= k < |rules| && Matches(rules[k].base, path) &&
                        (forall j :: 0 <= j < k ==> !Matches(rules[j].base, path))
                    ==> r == rules[k].policy
    ensures (forall k :: 0 <= k < |rules| ==> !Matches(rules[k].base, path)) ==> r == Fallback
  {
    if rules == [] then Fallback
    else if Matches(rules[0].base, path) then rules[0].policy
    else
      assert forall k :: 1 <= k < |rules| ==> rules[1..][k - 1] == rules[k];
      PolicyFor(rules[1..], path)
  }

  /**
   * Whether a policy admits a caller: None is an anonymous request, Some(a) an
   * authenticated one with authorities a; hasRole(X) looks for "ROLE_X".
   */
  predicate Permits(policy: Policy, caller: Option<set<string>>): (r: bool)
    ensures caller.None? ==> (r <==> policy.PermitAll?)
    ensures policy.PermitAll? || policy.Authenticated? ==> (r <==> policy.PermitAll? || caller.Some?)
  {
    match policy
    case PermitAll => true
    case Authenticated => caller.Some?
    case HasAnyRole(roles) =>
      caller.Some? && exists r :: r in roles && CustomUserDetailsService.Authority(r) in caller.value
  }

  /**
   * The decision for a request: an anonymous caller is let through exactly on the
   * public paths, an authenticated one at least there and on every unlisted path.
   */
  predicate Authorize(path: string, caller: Option<set<string>>): (r: bool)
    ensures caller.None? ==> (r <==> Matches(PublicBase, path))
    ensures caller.Some? && (Matches(PublicBase, path) || forall k :: 0 <= k < |Rules| ==> !Matches(Rules[k].base, path)) ==> r
  {
    TableDisjoint(path);
    if k :| 0 <= k < |Rules| && Matches(Rules[k].base, path) then
      FirstMatchIsAnyMatch(Rules, path, k);
      Permits(PolicyFor(Rules, path), caller)
    else
      Permits(PolicyFor(Rules, path), caller)
  }

  /** The caller the filter builds for a user with these roles. */
  function CallerWithRoles(roles: set<Role>): Option<set<string>>
  {
    Some(CustomUserDetailsService.Authorities(roles))
  }

  /** A role-restricted policy admits a user exactly when the user holds one of its roles. */
  lemma HasAnyRoleMeansSharedRole(required: set<Role>, roles: set<Role>)
    ensures Permits(HasAnyRole(required), CallerWithRoles(roles)) <==> required * roles != {}
    ensures !Permits(HasAnyRole(required), None)
  {
    if Permits(HasAnyRole(required), CallerWithRoles(roles)) {
      var r :| r in required && CustomUserDetailsService.Authority(r) in CustomUserDetailsService.Authorities(roles);
            assert r in required * roles;
    }
    if required * roles != {} {
      var r :| r in required * roles;
          }
  }

  /** A path matched by a pattern agrees with it on the ninth character, which tells the four apart. */
  lemma MatchFixesNinth(base: string, path: string)
    requires |base| > 8 && Matches(base, path)
    ensures |path| > 8 && path[8] == base[8]
  {
    if path != base {
      assert path[..|base + "/"|] == base + "/";
      assert path[8] == path[..|base + "/"|][8];
    }
  }

  /** No path matches two of the four patterns. */
  lemma PatternsDisjoint(path: string, i: nat, j: nat)
    requires i < j < |Rules|
    ensures !(Matches(Rules[i].base, path) && Matches(Rules[j].base, path))
  {
    if Matches(Rules[i].base, path) && Matches(Rules[j].base, path) {
      MatchFixesNinth(Rules[i].base, path);
      MatchFixesNinth(Rules[j].base, path);
    }
  }

  /** With disjoint patterns, the first match is the only one, so it is any matching rule's policy. */
  lemma {:induction false} FirstMatchIsAnyMatch(rules: seq<Rule>, path: string, k: nat)
    requires forall a, b :: 0 <= a < b < |rules| ==> !(Matches(rules[a].base, path) && Matches(rules[b].base, path))
    requires k < |rules| && Matches(rules[k].base, path)
    ensures PolicyFor(rules, path) == rules[k].policy
  {
    if k > 0 {
      assert !Matches(rules[0].base, path) by {
        assert Matches(rules[k].base, path);
      }
      FirstMatchIsAnyMatch(rules[1..], path, k - 1);
    }
  }

  /** The four patterns of the table are pairwise disjoint. */
  lemma TableDisjoint(path: string)
    ensures forall a, b :: 0 <= a < b < |Rules| ==> !(Matches(Rules[a].base, path) && Matches(Rules[b].base, path))
  {
    forall a, b | 0 <= a < b < |Rules| ensures !(Matches(Rules[a].base, path) && Matches(Rules[b].base, path)) {
      PatternsDisjoint(path, a, b);
    }
  }

  /**
   * Rule order does not matter: a table holding the same rules, each once, in any
   * order, decides every path the same way.
   */
  lemma TableOrderIrrelevant(rules: seq<Rule>, path: string)
    requires forall a, b :: 0 <= a < b < |rules| ==> rules[a] != rules[b]
    requires forall r :: r in rules <==> r in Rules
    ensures PolicyFor(rules, path) == PolicyFor(Rules, path)
  {
    TableDisjoint(path);
    forall a, b | 0 <= a < b < |rules| ensures !(Matches(rules[a].base, path) && Matches(rules[b].base, path)) {
      assert rules[a] in Rules && rules[b] in Rules;
      var i :| 0 <= i < |Rules| && Rules[i] == rules[a];
      var j :| 0 <= j < |Rules| && Rules[j] == rules[b];
      assert i != j;
    }
    if k :| 0 <= k < |rules| && Matches(rules[k].base, path) {
      FirstMatchIsAnyMatch(rules, path, k);
      assert rules[k] in Rules;
      var i :| 0 <= i < |Rules| && Rules[i] == rules[k];
      FirstMatchIsAnyMatch(Rules, path, i);
    } else {
      forall i | 0 <= i < |Rules| ensures !Matches(Rules[i].base, path) {
        assert Rules[i] in rules;
      }
    }
  }

  /** A path matched by a pattern of the table is decided by that pattern's policy alone. */
  lemma RuleDecides(path: string, k: nat, caller: Option<set<string>>)
    requires k < |Rules| && Matches(Rules[k].base, path)
    ensures Authorize(path, caller) == Permits(Rules[k].policy, caller)
  {
    TableDisjoint(path);
    FirstMatchIsAnyMatch(Rules, path, k);
  }

  /** Every caller, anonymous ones included, may use the public paths. */
  lemma PublicIsOpen(path: string, caller: Option<set<string>>)
    requires Matches(PublicBase, path)
    ensures Authorize(path, caller)
  {
  }

  /** The admin paths admit exactly the callers holding ADMIN. */
  lemma AdminRule(path: string, roles: set<Role>)
    requires Matches(AdminBase, path)
    ensures Authorize(path, CallerWithRoles(roles)) <==> ADMIN in roles
    ensures !Authorize(path, None)
  {
    RuleDecides(path, 1, CallerWithRoles(roles));
    RuleDecides(path, 1, None);
    HasAnyRoleMeansSharedRole({ADMIN}, roles);
  }

  /** The moderator paths admit exactly the callers holding MODERATOR or ADMIN. */
  lemma ModeratorRule(path: string, roles: set<Role>)
    requires Matches(ModeratorBase, path)
    ensures Authorize(path, CallerWithRoles(roles)) <==> MODERATOR in roles || ADMIN in roles
    ensures !Authorize(path, None)
  {
    var required := {MODERATOR, ADMIN};
    RuleDecides(path, 2, CallerWithRoles(roles));
    RuleDecides(path, 2, None);
    HasAnyRoleMeansSharedRole(required, roles);
    assert required * roles != {} <==> MODERATOR in roles || ADMIN in roles by {
      assert MODERATOR in roles ==> MODERATOR in required * roles;
      assert ADMIN in roles ==> ADMIN in required * roles;
    }
  }

  /** The user paths admit exactly the callers holding USER, MODERATOR or ADMIN. */
  lemma UserRule(path: string, roles: set<Role>)
    requires Matches(UserBase, path)
    ensures Authorize(path, CallerWithRoles(roles)) <==> USER in roles || MODERATOR in roles || ADMIN in roles
    ensures !Authorize(path, None)
  {
    var required := {USER, MODERATOR, ADMIN};
    RuleDecides(path, 3, CallerWithRoles(roles));
    RuleDecides(path, 3, None);
    HasAnyRoleMeansSharedRole(required, roles);
    assert required * roles != {} <==> USER in roles || MODERATOR in roles || ADMIN in roles by {
      assert USER in roles ==> USER in required * roles;
      assert MODERATOR in roles ==> MODERATOR in required * roles;
      assert ADMIN in roles ==> ADMIN in required * roles;
    }
  }

  /** Every other path admits exactly the authenticated callers. */
  lemma OtherPathsNeedAuthentication(path: string, caller: Option<set<string>>)
    requires forall k :: 0 <= k < |Rules| ==> !Matches(Rules[k].base, path)
    ensures Authorize(path, caller) <==> caller.Some?
  {
  }

  /**
   * The role sets are nested, admin within moderator within user, so a user with
   * roles admitted on a stricter prefix is admitted on every looser one.
   */
  lemma RolesNested(roles: set<Role>, adminPath: string, moderatorPath: string, userPath: string)
    requires Matches(AdminBase, adminPath) && Matches(ModeratorBase, moderatorPath) && Matches(UserBase, userPath)
    ensures Authorize(adminPath, CallerWithRoles(roles)) ==> Authorize(moderatorPath, CallerWithRoles(roles))
    ensures Authorize(moderatorPath, CallerWithRoles(roles)) ==> Authorize(userPath, CallerWithRoles(roles))
  {
    AdminRule(adminPath, roles);
    ModeratorRule(moderatorPath, roles);
    UserRule(userPath, roles);
  }

  /** The logout URL lies under the public prefix, so logging out needs no authentication. */
  lemma LogoutIsPublic(caller: Option<set<string>>)
    ensures Matches(PublicBase, LogoutUrl)
    ensures Authorize(LogoutUrl, caller)
  {
    assert LogoutUrl[..|PublicBase + "/"|] == PublicBase + "/";
  }
}
