/**
 The consistency a store keeps under every operation of the engine, for a fixed
 current month: codes stay unique, references resolve, every edge carries its
 level's rate, both monthly caps hold, each account's cached monthly statistics
 agree with the edges recorded in its name, and balances stay in range.
 */
module Invariants {
  import opened Outcomes
  import opened User
  import opened Referral
  import opened Store
  import opened Caps
  import opened Redemption
  import opened Conversion
  import opened Invitation
  import opened Status

  /**
   An account's cached statistics agree with the edge log: for the current month they
   count and sum its edges of that month; a stale month means it has none.
   */
  predicate StatsAgree(a: Account, edges: seq<Edge>, id: Id, month: Month)
  {
    if a.monthlyStats.month == month then
      && a.monthlyStats.totalReferrals == |MonthReferrals(edges, id, month)|
      && a.monthlyStats.l2Credits == LevelCredits(edges, id, L2, month)
      && a.monthlyStats.l3Credits == LevelCredits(edges, id, L3, month)
    else
      MonthReferrals(edges, id, month) == []
  }

  /** `referredBy` names another existing account, and the level records whether it is set. */
  predicate ReferenceResolves(accounts: map<Id, Account>, id: Id)
    requires id in accounts
  {
    var a := accounts[id];
    if a.referredBy.Some? then
      a.referredBy.value in accounts && a.referredBy.value != id && a.referralLevel == 1
    else
      a.referralLevel == 0
  }

  /** Confirmed credit is never negative and pending credit stays below the threshold. */
  predicate LedgerInRange(a: Account)
  {
    a.credits >= 0.0 && 0.0 <= a.pendingCredits < AutoConversionThreshold
  }

  ghost predicate Valid(s: Store, month: Month)
  {
    && UniqueCodes(s.accounts)
    && (forall id :: id in s.accounts ==> ReferenceResolves(s.accounts, id))
    && (forall id :: id in s.accounts ==> LedgerInRange(s.accounts[id]))
    && (forall id :: id in s.accounts ==> StatsAgree(s.accounts[id], s.edges, id, month))
    && (forall i :: 0 <= i < |s.edges| ==>
          s.edges[i].referrer in s.accounts && s.edges[i].referred in s.accounts)
    && (forall i :: 0 <= i < |s.edges| ==> s.edges[i].creditAmount == CreditAmount(s.edges[i].level))
    && WithinCaps(s.edges, month)
  }

  /** Recording an award keeps the awarded account's statistics in agreement with the log. */
  lemma AwardKeepsStatsAgreement(a: Account, edges: seq<Edge>, e: Edge, month: Month)
    requires StatsAgree(a, edges, e.referrer, month)
    requires e.month == month && e.creditAmount == CreditAmount(e.level)
    ensures StatsAgree(a.(monthlyStats := CountAward(ResetMonthlyStats(a, month).monthlyStats, e.level)),
                       edges + [e], e.referrer, month)
  {
    var id := e.referrer;
    var stats := ResetMonthlyStats(a, month).monthlyStats;
    if a.monthlyStats.month != month {
      NoMonthReferralsNoLevelCredits(edges, id, L2, month);
      NoMonthReferralsNoLevelCredits(edges, id, L3, month);
    }
    assert stats.month == month && stats.totalReferrals == |MonthReferrals(edges, id, month)|;
    assert stats.l2Credits == LevelCredits(edges, id, L2, month);
    assert stats.l3Credits == LevelCredits(edges, id, L3, month);
    FindSnoc(edges, e, InMonth(id, month));
    LevelCreditsSnoc(edges, e, id, L2, month);
    LevelCreditsSnoc(edges, e, id, L3, month);
  }

  /** An edge in another account's name leaves an account's agreement with the log intact. */
  lemma OtherEdgeKeepsStatsAgreement(a: Account, edges: seq<Edge>, e: Edge, id: Id, month: Month)
    requires StatsAgree(a, edges, id, month)
    requires e.referrer != id
    ensures StatsAgree(a, edges + [e], id, month)
  {
    FindSnoc(edges, e, InMonth(id, month));
    LevelCreditsSnoc(edges, e, id, L2, month);
    LevelCreditsSnoc(edges, e, id, L3, month);
  }

  /** An award the caps allowed keeps the store valid. */
  lemma RecordAwardPreservesValid(s: Store, ancestor: Id, userId: Id, level: Level, month: Month)
    requires Valid(s, month)
    requires ancestor in s.accounts && userId in s.accounts
    requires CheckMonthlyCaps(s.edges, ancestor, CreditAmount(level), month).Allowed?
    ensures Valid(RecordAward(s, ancestor, userId, level, month), month)
  {
    var e := NewEdge(ancestor, userId, level, CreditAmount(level), month);
    AllowedAwardStaysWithinCaps(s.edges, e, month);
    AppendedEdgeKeepsLog(s.edges, e, s.accounts);
    RecordAwardKeepsStatsAgreement(s, ancestor, userId, level, month);
    RecordAwardKeepsProfiles(s, ancestor, userId, level, month);
  }

  /** An edge between existing accounts at its level's rate keeps the log's references and rates in order. */
  lemma AppendedEdgeKeepsLog(edges: seq<Edge>, e: Edge, accounts: map<Id, Account>)
    requires forall i :: 0 <= i < |edges| ==> edges[i].referrer in accounts && edges[i].referred in accounts
    requires forall i :: 0 <= i < |edges| ==> edges[i].creditAmount == CreditAmount(edges[i].level)
    requires e.referrer in accounts && e.referred in accounts && e.creditAmount == CreditAmount(e.level)
    ensures forall i :: 0 <= i < |edges + [e]| ==> (edges + [e])[i].referrer in accounts && (edges + [e])[i].referred in accounts
    ensures forall i :: 0 <= i < |edges + [e]| ==> (edges + [e])[i].creditAmount == CreditAmount((edges + [e])[i].level)
  {
  }

  /** Recording an award keeps every account's statistics in agreement with the log. */
  lemma RecordAwardKeepsStatsAgreement(s: Store, ancestor: Id, userId: Id, level: Level, month: Month)
    requires ancestor in s.accounts
    requires forall id :: id in s.accounts ==> StatsAgree(s.accounts[id], s.edges, id, month)
    ensures var r := RecordAward(s, ancestor, userId, level, month);
            forall id :: id in r.accounts ==> StatsAgree(r.accounts[id], r.edges, id, month)
  {
    var r := RecordAward(s, ancestor, userId, level, month);
    var e := NewEdge(ancestor, userId, level, CreditAmount(level), month);
    forall id | id in r.accounts
      ensures StatsAgree(r.accounts[id], r.edges, id, month)
    {
      if id == ancestor {
        AwardKeepsStatsAgreement(s.accounts[id], s.edges, e, month);
        assert r.accounts[id] == r.accounts[id].(monthlyStats := r.accounts[id].monthlyStats);
      } else {
        OtherEdgeKeepsStatsAgreement(s.accounts[id], s.edges, e, id, month);
      }
    }
  }

  /** Recording an award keeps codes unique, references resolving and balances in range. */
  lemma RecordAwardKeepsProfiles(s: Store, ancestor: Id, userId: Id, level: Level, month: Month)
    requires ancestor in s.accounts
    requires UniqueCodes(s.accounts)
    requires forall id :: id in s.accounts ==> ReferenceResolves(s.accounts, id)
    requires forall id :: id in s.accounts ==> LedgerInRange(s.accounts[id])
    ensures var r := RecordAward(s, ancestor, userId, level, month);
            && UniqueCodes(r.accounts)
            && (forall id :: id in r.accounts ==> ReferenceResolves(r.accounts, id))
            && (forall id :: id in r.accounts ==> LedgerInRange(r.accounts[id]))
  {
    var r := RecordAward(s, ancestor, userId, level, month);
    forall id | id in r.accounts
      ensures ReferenceResolves(r.accounts, id) && LedgerInRange(r.accounts[id])
    {
      assert SameProfile(s.accounts[id], r.accounts[id]);
      assert ReferenceResolves(s.accounts, id);
    }
    assert UniqueCodes(r.accounts) by {
      forall id | id in s.accounts
        ensures r.accounts[id].referralCode == s.accounts[id].referralCode
      {
        assert SameProfile(s.accounts[id], r.accounts[id]);
      }
    }
  }

  /** Binding a fresh redeemer to another existing account keeps the store valid. */
  lemma BindReferrerPreservesValid(s: Store, userId: Id, referrer: Id, month: Month)
    requires Valid(s, month)
    requires userId in s.accounts && referrer in s.accounts && referrer != userId
    ensures Valid(BindReferrer(s, userId, referrer), month)
  {
    var r := BindReferrer(s, userId, referrer);
    BindReferrerKeepsReferences(s, userId, referrer);
    forall id | id in r.accounts
      ensures StatsAgree(r.accounts[id], r.edges, id, month)
    {
      assert r.accounts[id].monthlyStats == s.accounts[id].monthlyStats;
    }
  }

  lemma BindReferrerKeepsReferences(s: Store, userId: Id, referrer: Id)
    requires forall id :: id in s.accounts ==> ReferenceResolves(s.accounts, id)
    requires userId in s.accounts && referrer in s.accounts && referrer != userId
    ensures forall id :: id in BindReferrer(s, userId, referrer).accounts ==>
              ReferenceResolves(BindReferrer(s, userId, referrer).accounts, id)
  {
    var r := BindReferrer(s, userId, referrer);
    forall id | id in r.accounts
      ensures ReferenceResolves(r.accounts, id)
    {
      assert ReferenceResolves(s.accounts, id);
    }
  }

  /** One step of an L2/L3 pass keeps the store valid: the award happens only when the caps allow it. */
  lemma AwardAncestorPreservesValid(s: Store, ancestor: Id, userId: Id, level: Level, month: Month)
    requires Valid(s, month)
    requires userId in s.accounts
    ensures Valid(AwardAncestor(s, ancestor, userId, level, month), month)
  {
    if MayAward(s, ancestor, level, month) {
      RecordAwardPreservesValid(s, ancestor, userId, level, month);
    }
  }

  /** A whole L2/L3 pass keeps the store valid, whatever ancestor edges it walks. */
  lemma {:induction false} AwardAllPreservesValid(s: Store, upline: seq<Edge>, userId: Id, level: Level, month: Month)
    requires Valid(s, month)
    requires userId in s.accounts
    ensures Valid(AwardAll(s, upline, userId, level, month), month)
    decreases |upline|
  {
    if upline != [] {
      var s1 := AwardAncestor(s, upline[0].referrer, userId, level, month);
      AwardAncestorPreservesValid(s, upline[0].referrer, userId, level, month);
      AwardAllPreservesValid(s1, upline[1..], userId, level, month);
    }
  }

  /**
   Redeeming a code keeps the store valid, whether it is refused outright, refused by
   the caps after the binding, or carried through to the end of the L3 pass.
   */
  lemma RedeemCodePreservesValid(s: Store, code: string, userId: Id, month: Month)
    requires Valid(s, month)
    ensures Valid(RedeemCode(s, code, userId, month).1, month)
  {
    if Admissible(s, code, userId) {
      var referrer := CodeOwner(s, code).value;
      var bound := BindReferrer(s, userId, referrer);
      BindReferrerPreservesValid(s, userId, referrer, month);
      if CheckMonthlyCaps(bound.edges, referrer, CreditAmount(L1), month).Allowed? {
        var direct := RecordAward(bound, referrer, userId, L1, month);
        RecordAwardPreservesValid(bound, referrer, userId, L1, month);
        var second := AwardAll(direct, Find(direct.edges, Upline(referrer, L1)), userId, L2, month);
        AwardAllPreservesValid(direct, Find(direct.edges, Upline(referrer, L1)), userId, L2, month);
        AwardAllPreservesValid(second, Find(second.edges, Upline(referrer, L2)), userId, L3, month);
      }
    }
  }

  /** A manual conversion keeps the store valid. */
  lemma ConvertCreditsPreservesValid(s: Store, userId: Id, month: Month)
    requires Valid(s, month)
    ensures Valid(ConvertCredits(s, userId).1, month)
  {
    var r := ConvertCredits(s, userId).1;
    if r != s {
      forall id | id in r.accounts
        ensures ReferenceResolves(r.accounts, id) && StatsAgree(r.accounts[id], r.edges, id, month)
      {
        assert ReferenceResolves(s.accounts, id);
      }
      assert UniqueCodes(r.accounts) by {
        forall id | id in r.accounts
          ensures r.accounts[id].referralCode == s.accounts[id].referralCode
        {
        }
      }
    }
  }

  /** An account no edge names has no edges in any month. */
  lemma {:induction false} UnnamedAccountHasNoReferrals(edges: seq<Edge>, id: Id, month: Month)
    requires forall i :: 0 <= i < |edges| ==> edges[i].referrer != id
    ensures MonthReferrals(edges, id, month) == []
  {
    if edges != [] {
      UnnamedAccountHasNoReferrals(edges[1..], id, month);
    }
  }

  /** Inviting an account under a fresh id and an unused code keeps the store valid. */
  lemma InviteUserPreservesValid(s: Store, email: string, username: string, newId: Id, code: string, month: Month)
    requires Valid(s, month)
    requires newId !in s.accounts
    requires forall id :: id in s.accounts ==> s.accounts[id].referralCode != code
    ensures Valid(InviteUser(s, email, username, newId, code, month).1, month)
  {
    var r := InviteUser(s, email, username, newId, code, month).1;
    if r != s {
      UnnamedAccountHasNoReferrals(s.edges, newId, month);
      NoMonthReferralsNoLevelCredits(s.edges, newId, L2, month);
      NoMonthReferralsNoLevelCredits(s.edges, newId, L3, month);
      forall id | id in r.accounts
        ensures ReferenceResolves(r.accounts, id)
      {
        if id != newId {
          assert ReferenceResolves(s.accounts, id);
        }
      }
    }
  }

  /** In a valid store every edge carries a positive amount, so combined credit is never negative. */
  lemma CombinedCreditNonNegative(s: Store, id: Id, month: Month)
    requires Valid(s, month)
    ensures L2L3Credits(s.edges, id, month) >= 0.0
  {
    var found := MonthReferrals(s.edges, id, month);
    forall i | 0 <= i < |found|
      ensures found[i].creditAmount >= 0.0
    {
      assert found[i] in s.edges;
    }
    UpperLevelSumNonNegative(found);
  }

  /**
   For an account whose statistics are current, the status snapshot agrees with the
   edge log: the three level counts add up to the cached referral total, the L2 and
   L3 credits add up to the cached combined credit, each level's credit is its count
   times its rate, both cap percentages lie between 0 and 100, and pending credit is
   never reported as ready for auto-conversion.
   */
  lemma StatusAgreesWithLog(s: Store, userId: Id, month: Month, baseUrl: string)
    requires Valid(s, month)
    requires userId != "" && userId in s.accounts
    requires s.accounts[userId].monthlyStats.month == month
    ensures GetReferralStatus(s, userId, month, baseUrl).Ok?
    ensures var snap := GetReferralStatus(s, userId, month, baseUrl).value;
            && (snap.l1.count + snap.l2.count + snap.l3.count) as real == snap.totalReferrals.current
            && snap.l2.credits + snap.l3.credits == snap.l2L3Combined.current
            && AtRate(snap.l1, L1) && AtRate(snap.l2, L2) && AtRate(snap.l3, L3)
            && 0 <= snap.totalReferrals.percentage <= 100
            && 0 <= snap.l2L3Combined.percentage <= 100
            && !snap.canAutoConvert
  {
    CombinedCreditNonNegative(s, userId, month);
    assert StatsAgree(s.accounts[userId], s.edges, userId, month);
    assert LedgerInRange(s.accounts[userId]);
    assert |MonthReferrals(s.edges, userId, month)| <= TotalReferralsCap;
    assert L2L3Credits(s.edges, userId, month) <= L2L3CombinedCap;
    StatusLevelsOfCurrentAccount(s, userId, month, baseUrl);
    CanonicalLevelRows(s.edges, userId, month);
    StatusLevelRates(s, userId, month, baseUrl);
    StatusCapsOfCurrentAccount(s, userId, month, baseUrl);
  }

  /** The level rows of the snapshot against the cached statistics, for an account whose statistics are current. */
  lemma StatusLevelsOfCurrentAccount(s: Store, userId: Id, month: Month, baseUrl: string)
    requires userId != "" && userId in s.accounts
    requires s.accounts[userId].monthlyStats.month == month
    requires StatsAgree(s.accounts[userId], s.edges, userId, month)
    ensures GetReferralStatus(s, userId, month, baseUrl).Ok?
    ensures var snap := GetReferralStatus(s, userId, month, baseUrl).value;
            && (snap.l1.count + snap.l2.count + snap.l3.count) as real == snap.totalReferrals.current
            && snap.l2.credits + snap.l3.credits == snap.l2L3Combined.current
  {
    var snap := GetReferralStatus(s, userId, month, baseUrl).value;
    var stats := s.accounts[userId].monthlyStats;
    LevelCountsPartitionMonth(s.edges, userId, month);
    assert snap.l1.count + snap.l2.count + snap.l3.count == stats.totalReferrals;
    UpperLevelsMakeCombinedCredit(s.edges, userId, month);
    assert snap.l2.credits + snap.l3.credits == stats.l2Credits + stats.l3Credits;
  }

  /** When every edge carries its level's rate, every level row of an account's month is at its rate. */
  lemma CanonicalLevelRows(edges: seq<Edge>, id: Id, month: Month)
    requires forall i :: 0 <= i < |edges| ==> edges[i].creditAmount == CreditAmount(edges[i].level)
    ensures forall level: Level :: AtRate(LevelStatsOf(edges, id, level, month), level)
  {
    forall level: Level
      ensures AtRate(LevelStatsOf(edges, id, level, month), level)
    {
      CanonicalLevelCredits(edges, id, level, month);
    }
  }

  /** When every level row of the account's month is at its rate, so is each level row of the snapshot. */
  lemma StatusLevelRates(s: Store, userId: Id, month: Month, baseUrl: string)
    requires userId != "" && userId in s.accounts
    requires forall level: Level :: AtRate(LevelStatsOf(s.edges, userId, level, month), level)
    ensures GetReferralStatus(s, userId, month, baseUrl).Ok?
    ensures var snap := GetReferralStatus(s, userId, month, baseUrl).value;
            AtRate(snap.l1, L1) && AtRate(snap.l2, L2) && AtRate(snap.l3, L3)
  {
    var snap := GetReferralStatus(s, userId, month, baseUrl).value;
    assert snap.l1 == LevelStatsOf(s.edges, userId, L1, month);
    assert snap.l2 == LevelStatsOf(s.edges, userId, L2, month);
    assert snap.l3 == LevelStatsOf(s.edges, userId, L3, month);
  }

  /** The cap rows of the snapshot, for an account whose statistics are current and within both caps. */
  lemma StatusCapsOfCurrentAccount(s: Store, userId: Id, month: Month, baseUrl: string)
    requires userId != "" && userId in s.accounts
    requires s.accounts[userId].monthlyStats.month == month
    requires StatsAgree(s.accounts[userId], s.edges, userId, month)
    requires LedgerInRange(s.accounts[userId])
    requires |MonthReferrals(s.edges, userId, month)| <= TotalReferralsCap
    requires 0.0 <= L2L3Credits(s.edges, userId, month) <= L2L3CombinedCap
    ensures GetReferralStatus(s, userId, month, baseUrl).Ok?
    ensures var snap := GetReferralStatus(s, userId, month, baseUrl).value;
            && 0 <= snap.totalReferrals.percentage <= 100
            && 0 <= snap.l2L3Combined.percentage <= 100
            && !snap.canAutoConvert
  {
    UpperLevelsMakeCombinedCredit(s.edges, userId, month);
  }

  /**
   For an account whose statistics still belong to an earlier month, the snapshot
   shows no edges for this month but reports cap usage from the stale statistics.
   */
  lemma StaleStatusShowsEarlierMonth(s: Store, userId: Id, month: Month, baseUrl: string)
    requires Valid(s, month)
    requires userId != "" && userId in s.accounts
    requires s.accounts[userId].monthlyStats.month != month
    ensures GetReferralStatus(s, userId, month, baseUrl).Ok?
    ensures var snap := GetReferralStatus(s, userId, month, baseUrl).value;
            var stats := s.accounts[userId].monthlyStats;
            && snap.l1.count == 0 && snap.l2.count == 0 && snap.l3.count == 0
            && snap.totalReferrals.current == stats.totalReferrals as real
            && snap.l2L3Combined.current == stats.l2Credits + stats.l3Credits
  {
    assert StatsAgree(s.accounts[userId], s.edges, userId, month);
    LevelCountsPartitionMonth(s.edges, userId, month);
  }
}
