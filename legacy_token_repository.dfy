/** The earlier copy of the registry queries in the rbac-project tree. */
module LegacyTokenRepository {
  import opened Outcomes
  import opened Entities
  import TokenRepository

  /**
   * findAllValidTokensByUserId: the positions of the user's records with
   * expired = false OR revoked = false; other users' records are never returned.
   */
  function FindAllValidTokensByUserId(rs: seq<TokenRecord>, userId: nat): (r: seq<nat>)
    ensures forall k :: k in r <==>
      0 <= k < |rs| && rs[k].userId == userId && (!rs[k].expired || !rs[k].revoked)
    ensures forall k :: k in r ==> rs[k].userId == userId
  {
    TokenRepository.ValidTokens(rs, userId)
  }

  /** findByToken: the one record holding the string, none, or a failure if several do. */
  function FindByToken(rs: seq<TokenRecord>, s: string): (r: TokenRepository.Lookup)
    ensures r.NoMatch? <==> forall k :: 0 <= k < |rs| ==> rs[k].token != s
    ensures r.Match? ==> r.index < |rs| && rs[r.index].token == s &&
                         forall k :: 0 <= k < |rs| && rs[k].token == s ==> k == r.index
    ensures r.NonUnique? <==> exists a, b :: 0 <= a < b < |rs| && rs[a].token == s && rs[b].token == s
  {
    TokenRepository.MatchToken(rs, s)
  }
}
