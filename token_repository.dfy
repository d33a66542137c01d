/**
 * The token registry: its two declared queries as functions over the stored
 * records, the invariants the identity service keeps on them, and the registry
 * object itself, whose methods record every call made to it.
 */
module TokenRepository {
  import opened Outcomes
  import opened Entities

  /** The positions k < n whose record satisfies p, in increasing order. */
  function Positions(rs: seq<TokenRecord>, p: TokenRecord -> bool, n: nat): (r: seq<nat>)
    requires n <= |rs|
    ensures forall k :: k in r <==> 0 <= k < n && p(rs[k])
    ensures forall a, b :: 0 <= a < b < |r| ==> r[a] < r[b]
  {
    if n == 0 then []
    else
      var init := Positions(rs, p, n - 1);
      assert forall j :: 0 <= j < |init| ==> init[j] in init;
      init + (if p(rs[n - 1]) then [n - 1] else [])
  }

  /** The WHERE clause of the valid-token query, with its OR as written. */
  predicate SelectedAsWritten(t: TokenRecord, userId: nat)
  {
    t.userId == userId && (!t.expired || !t.revoked)
  }

  /** findAllValidTokensByUserId: the positions of the records the query returns. */
  function ValidTokens(rs: seq<TokenRecord>, userId: nat): (r: seq<nat>)
    ensures forall k :: k in r <==>
      0 <= k < |rs| && rs[k].userId == userId && (!rs[k].expired || !rs[k].revoked)
    ensures forall j :: 0 <= j < |r| ==> r[j] < |rs|
    ensures forall a, b :: 0 <= a < b < |r| ==> r[a] < r[b]
  {
    var r := Positions(rs, (t: TokenRecord) => SelectedAsWritten(t, userId), |rs|);
    assert forall j :: 0 <= j < |r| ==> r[j] in r;
    r
  }

  /** Every write path sets the two flags together. */
  ghost predicate FlagsAgree(rs: seq<TokenRecord>)
  {
    forall k :: 0 <= k < |rs| ==> rs[k].expired == rs[k].revoked
  }

  /**
   * On records whose flags agree, the OR in the query selects exactly the records
   * that are neither expired nor revoked, which is what its comment says.
   */
  lemma QueryMeansLive(rs: seq<TokenRecord>, userId: nat)
    requires FlagsAgree(rs)
    ensures forall k :: k in ValidTokens(rs, userId) <==>
      0 <= k < |rs| && rs[k].userId == userId && Live(rs[k])
  {
  }

  /** Without that invariant the OR and the commented intent differ: a half-revoked record is returned. */
  lemma HalfRevokedIsSelected(t: TokenRecord)
    requires t.expired && !t.revoked
    ensures 0 in ValidTokens([t], t.userId) && !Live(t)
  {
  }

  /** The outcome of findByToken, which returns an Optional and throws on several rows. */
  datatype Lookup = NoMatch | Match(index: nat) | NonUnique

  /** findByToken(s): the one record holding the string s, none, or a failure if several do. */
  function MatchToken(rs: seq<TokenRecord>, s: string): (r: Lookup)
    ensures r.NoMatch? <==> forall k :: 0 <= k < |rs| ==> rs[k].token != s
    ensures r.Match? ==> r.index < |rs| && rs[r.index].token == s &&
                         forall k :: 0 <= k < |rs| && rs[k].token == s ==> k == r.index
    ensures r.NonUnique? <==> exists a, b :: 0 <= a < b < |rs| && rs[a].token == s && rs[b].token == s
  {
    var m := Positions(rs, (t: TokenRecord) => t.token == s, |rs|);
    if |m| == 0 then NoMatch
    else if |m| == 1 then
      assert m[0] in m;
      Match(m[0])
    else
      assert m[0] in m && m[1] in m;
      NonUnique
  }

  /** No two records share a token string. */
  ghost predicate UniqueTokens(rs: seq<TokenRecord>)
  {
    forall a, b :: 0 <= a < b < |rs| ==> rs[a].token != rs[b].token
  }

  /** The lookup depends on the token strings only, not on the flags. */
  lemma {:induction false} MatchTokenIgnoresFlags(rs: seq<TokenRecord>, rs': seq<TokenRecord>, s: string)
    requires |rs| == |rs'|
    requires forall k :: 0 <= k < |rs| ==> rs[k].token == rs'[k].token
    ensures MatchToken(rs, s) == MatchToken(rs', s)
  {
    var p := (t: TokenRecord) => t.token == s;
    var n := |rs|;
    assert Positions(rs, p, n) == Positions(rs', p, n) by {
      SameTokensSamePositions(rs, rs', p, n);
    }
  }

  lemma {:induction false} SameTokensSamePositions(rs: seq<TokenRecord>, rs': seq<TokenRecord>,
                                                   p: TokenRecord -> bool, n: nat)
    requires n <= |rs| == |rs'|
    requires forall k :: 0 <= k < n ==> p(rs[k]) == p(rs'[k])
    ensures Positions(rs, p, n) == Positions(rs', p, n)
  {
    if n > 0 {
      SameTokensSamePositions(rs, rs', p, n - 1);
    }
  }

  /** At most one live record per user: the single-live-token invariant. */
  ghost predicate AtMostOneLivePerUser(rs: seq<TokenRecord>)
  {
    forall a, b :: 0 <= a < b < |rs| && Live(rs[a]) && Live(rs[b]) ==> rs[a].userId != rs[b].userId
  }

  /** The number of live records of one user. */
  function LiveCount(rs: seq<TokenRecord>, userId: nat): nat
  {
    if rs == [] then 0
    else LiveCount(rs[..|rs| - 1], userId) + (if rs[|rs| - 1].userId == userId && Live(rs[|rs| - 1]) then 1 else 0)
  }

  /** The pairwise invariant bounds every user's live count by one. */
  lemma {:induction false} AtMostOneLiveCount(rs: seq<TokenRecord>, userId: nat)
    requires AtMostOneLivePerUser(rs)
    ensures LiveCount(rs, userId) <= 1
  {
    if rs != [] {
      var init := rs[..|rs| - 1];
      assert AtMostOneLivePerUser(init) by {
        forall a, b | 0 <= a < b < |init| && Live(init[a]) && Live(init[b])
          ensures init[a].userId != init[b].userId
        {
          assert init[a] == rs[a] && init[b] == rs[b];
        }
      }
      AtMostOneLiveCount(init, userId);
      var last := rs[|rs| - 1];
      if last.userId == userId && Live(last) {
        NoLiveBefore(init, last, userId);
      }
    }
  }

  /** Helper: when the last record is live for the user, none before it is. */
  lemma {:induction false} NoLiveBefore(init: seq<TokenRecord>, last: TokenRecord, userId: nat)
    requires AtMostOneLivePerUser(init + [last])
    requires last.userId == userId && Live(last)
    ensures LiveCount(init, userId) == 0
  {
    forall k | 0 <= k < |init| ensures !(init[k].userId == userId && Live(init[k])) {
      assert (init + [last])[k] == init[k] && (init + [last])[|init|] == last;
    }
    NoLiveCountZero(init, userId);
  }

  /** A user with no live record has a live count of zero. */
  lemma {:induction false} NoLiveCountZero(rs: seq<TokenRecord>, userId: nat)
    requires forall k :: 0 <= k < |rs| ==> !(rs[k].userId == userId && Live(rs[k]))
    ensures LiveCount(rs, userId) == 0
  {
    if rs != [] {
      NoLiveCountZero(rs[..|rs| - 1], userId);
    }
  }

  /**
   * How the registry may change between two moments: records are only appended,
   * never removed, never given another string or owner, and a record that is no
   * longer live never becomes live again.
   */
  ghost predicate Evolves(rs: seq<TokenRecord>, rs': seq<TokenRecord>)
  {
    |rs| <= |rs'| &&
    forall k :: 0 <= k < |rs| ==>
      rs'[k].token == rs[k].token && rs'[k].userId == rs[k].userId && (!Live(rs[k]) ==> !Live(rs'[k]))
  }

  lemma EvolvesTransitive(rs: seq<TokenRecord>, rs': seq<TokenRecord>, rs'': seq<TokenRecord>)
    requires Evolves(rs, rs') && Evolves(rs', rs'')
    ensures Evolves(rs, rs'')
  {
  }

  /**
   * Once a record holding s is no longer live, the registry never again yields a
   * live unique match for s: later records with the same string make it non-unique.
   */
  lemma DeadRecordBlocksToken(rs: seq<TokenRecord>, rs': seq<TokenRecord>, k: nat)
    requires Evolves(rs, rs')
    requires k < |rs| && !Live(rs[k])
    ensures var m := MatchToken(rs', rs[k].token); !(m.Match? && Live(rs'[m.index]))
  {
    var m := MatchToken(rs', rs[k].token);
    if m.Match? {
      assert rs'[k].token == rs[k].token;
      assert m.index == k;
    }
  }

  /** saveAll over the given positions, later entries winning. */
  function Overwrite(rs: seq<TokenRecord>, ps: seq<nat>, us: seq<TokenRecord>): (r: seq<TokenRecord>)
    requires |ps| == |us|
    requires forall j :: 0 <= j < |ps| ==> ps[j] < |rs|
    ensures |r| == |rs|
  {
    if ps == [] then rs
    else Overwrite(rs, ps[..|ps| - 1], us[..|us| - 1])[ps[|ps| - 1] := us[|us| - 1]]
  }

  /** With distinct positions, each listed position holds its update and the rest is untouched. */
  lemma {:induction false} OverwriteAt(rs: seq<TokenRecord>, ps: seq<nat>, us: seq<TokenRecord>)
    requires |ps| == |us|
    requires forall j :: 0 <= j < |ps| ==> ps[j] < |rs|
    requires forall a, b :: 0 <= a < b < |ps| ==> ps[a] != ps[b]
    ensures forall j :: 0 <= j < |ps| ==> Overwrite(rs, ps, us)[ps[j]] == us[j]
    ensures forall k :: 0 <= k < |rs| && k !in ps ==> Overwrite(rs, ps, us)[k] == rs[k]
  {
    if ps != [] {
      var n := |ps| - 1;
      OverwriteAt(rs, ps[..n], us[..n]);
      forall k | 0 <= k < |rs| && k !in ps ensures Overwrite(rs, ps, us)[k] == rs[k] {
        assert k !in ps[..n];
      }
      forall j | 0 <= j < n ensures Overwrite(rs, ps, us)[ps[j]] == us[j] {
        assert ps[..n][j] == ps[j] && us[..n][j] == us[j];
      }
    }
  }

  /** The calls made to the registry, in order: what a caller's mock verification observes. */
  datatype Call =
    | FindByTokenCall(token: string)
    | FindAllValidTokensCall(userId: nat)
    | SaveCall(record: TokenRecord)
    | SaveAllCall(records: seq<TokenRecord>)

  /** The registry store: its records, and the log of calls made to it. */
  class TokenRegistry {
    var records: seq<TokenRecord>
    var calls: seq<Call>

    constructor ()
      ensures records == [] && calls == []
    {
      records := [];
      calls := [];
    }

    method FindByToken(s: string) returns (r: Lookup)
      modifies this`calls
      ensures records == old(records)
      ensures calls == old(calls) + [FindByTokenCall(s)]
      ensures r == MatchToken(records, s)
    {
      r := MatchToken(records, s);
      calls := calls + [FindByTokenCall(s)];
    }

    method FindAllValidTokensByUserId(userId: nat) returns (r: seq<nat>)
      modifies this`calls
      ensures records == old(records)
      ensures calls == old(calls) + [FindAllValidTokensCall(userId)]
      ensures r == ValidTokens(records, userId)
    {
      r := ValidTokens(records, userId);
      calls := calls + [FindAllValidTokensCall(userId)];
    }

    /** save of a new entity: an insert. */
    method Insert(t: TokenRecord)
      modifies this
      ensures records == old(records) + [t]
      ensures calls == old(calls) + [SaveCall(t)]
    {
      records := records + [t];
      calls := calls + [SaveCall(t)];
    }

    /** save of an entity read earlier: an update of its row. */
    method Update(k: nat, t: TokenRecord)
      requires k < |records|
      modifies this
      ensures records == old(records)[k := t]
      ensures calls == old(calls) + [SaveCall(t)]
    {
      records := records[k := t];
      calls := calls + [SaveCall(t)];
    }

    /** saveAll of entities read earlier, one row per entry. */
    method SaveAll(ps: seq<nat>, us: seq<TokenRecord>)
      requires |ps| == |us|
      requires forall j :: 0 <= j < |ps| ==> ps[j] < |records|
      modifies this
      ensures records == Overwrite(old(records), ps, us)
      ensures calls == old(calls) + [SaveAllCall(us)]
    {
      var j := 0;
      while j < |ps|
        invariant j <= |ps|
        invariant |records| == |old(records)| && calls == old(calls)
        invariant records == Overwrite(old(records), ps[..j], us[..j])
      {
        assert ps[..j + 1][..j] == ps[..j] && us[..j + 1][..j] == us[..j];
        records := records[ps[j] := us[j]];
        j := j + 1;
      }
      assert ps[..j] == ps && us[..j] == us;
      calls := calls + [SaveAllCall(us)];
    }
  }
}
