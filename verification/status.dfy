/**
 The status endpoint: a read-only snapshot of an account's month, rebuilt from the
 edges recorded in its name and from its own fields. It changes nothing.
 */
module Status {
  import opened Outcomes
  import opened User
  import opened Referral
  import opened Store
  import opened Caps

  datatype StatusError = MissingUserId | UserNotFound

  datatype LevelStats = LevelStats(count: int, credits: real)

  datatype CapProgress = CapProgress(current: real, limit: real, percentage: int)

  datatype Snapshot = Snapshot(
    id: Id,
    username: string,
    email: string,
    referralCode: string,
    l1: LevelStats,
    l2: LevelStats,
    l3: LevelStats,
    pendingCredits: real,
    isEligibleForConversion: bool,
    canAutoConvert: bool,
    creditsToNextConversion: real,
    threshold: real,
    completedRounds: int,
    requiredRounds: int,
    acceptedReflections: int,
    requiredReflections: int,
    l2L3Combined: CapProgress,
    totalReferrals: CapProgress,
    referralLink: string,
    currentCredits: real)

  /** `Math.round`: the nearest integer, halves rounded up. */
  function Round(x: real): (r: int)
    ensures x - 0.5 < r as real <= x + 0.5
  {
    (x + 0.5).Floor
  }

  /** Rounding leaves integers alone. */
  lemma RoundInteger(n: int)
    ensures Round(n as real) == n
  {
  }

  /** `Math.round(current / limit * 100)`. */
  function Percentage(current: real, limit: real): (r: int)
    requires limit != 0.0
    ensures current / limit * 100.0 - 0.5 < r as real <= current / limit * 100.0 + 0.5
  {
    Round(current / limit * 100.0)
  }

  /** The count and summed credit of the edges credited to `id` at `level` in `month`. */
  function LevelStatsOf(edges: seq<Edge>, id: Id, level: Level, month: Month): LevelStats
  {
    var found := Find(edges, AtLevelInMonth(id, level, month));
    LevelStats(|found|, Sum(found))
  }

  /** A level row whose credit is its count times the level's rate. */
  predicate AtRate(row: LevelStats, level: Level)
  {
    row.credits == row.count as real * CreditAmount(level)
  }

  /**
   `getReferralStatus`: per-level count and credit for the month from the edges, the
   pending balance, eligibility, how much is still needed to reach the conversion
   threshold, and cap usage taken from the cached monthly statistics.
   */
  function GetReferralStatus(s: Store, userId: Id, month: Month, baseUrl: string): (r: Result<Snapshot, StatusError>)
    ensures userId == "" ==> r == Err(MissingUserId)
    ensures r == Err(UserNotFound) <==> userId != "" && userId !in s.accounts
    ensures r.Ok? <==> userId != "" && userId in s.accounts
    ensures r.Ok? ==>
              var a := s.accounts[userId];
              var snap := r.value;
              && snap.id == userId && snap.referralCode == a.referralCode
              && snap.l1.count == |Find(s.edges, AtLevelInMonth(userId, L1, month))|
              && snap.l2.count == |Find(s.edges, AtLevelInMonth(userId, L2, month))|
              && snap.l3.count == |Find(s.edges, AtLevelInMonth(userId, L3, month))|
              && snap.l1.credits == LevelCredits(s.edges, userId, L1, month)
              && snap.l2.credits == LevelCredits(s.edges, userId, L2, month)
              && snap.l3.credits == LevelCredits(s.edges, userId, L3, month)
              && snap.pendingCredits == a.pendingCredits
              && snap.currentCredits == a.credits
              && (snap.isEligibleForConversion <==> IsEligibleForCredit(a))
              && snap.creditsToNextConversion >= 0.0
              && snap.pendingCredits + snap.creditsToNextConversion >= AutoConversionThreshold
              && (a.pendingCredits <= AutoConversionThreshold ==>
                    snap.pendingCredits + snap.creditsToNextConversion == AutoConversionThreshold)
              && (snap.canAutoConvert <==> a.pendingCredits >= AutoConversionThreshold)
              && (snap.canAutoConvert <==> snap.creditsToNextConversion == 0.0)
              && snap.l2L3Combined.current == a.monthlyStats.l2Credits + a.monthlyStats.l3Credits
              && snap.totalReferrals.current == a.monthlyStats.totalReferrals as real
              && snap.l2L3Combined.limit == L2L3CombinedCap
              && snap.totalReferrals.limit == TotalReferralsCap as real
              && snap.totalReferrals.percentage == a.monthlyStats.totalReferrals
              && snap.l2L3Combined.percentage as real - 0.5 <= snap.l2L3Combined.current * 2.0
              && snap.l2L3Combined.current * 2.0 < snap.l2L3Combined.percentage as real + 0.5
              && snap.referralLink == baseUrl + "/invite?code=" + a.referralCode
  {
    if userId == "" then
      Err(MissingUserId)
    else if userId !in s.accounts then
      Err(UserNotFound)
    else
      var a := s.accounts[userId];
      var combined := a.monthlyStats.l2Credits + a.monthlyStats.l3Credits;
      var total := a.monthlyStats.totalReferrals as real;
      var toNext := AutoConversionThreshold - a.pendingCredits;
      RoundInteger(a.monthlyStats.totalReferrals);
      assert combined / L2L3CombinedCap * 100.0 == combined * 2.0;
      assert total / (TotalReferralsCap as real) * 100.0 == total;
      Ok(Snapshot(
        userId, a.username, a.email, a.referralCode,
        LevelStatsOf(s.edges, userId, L1, month),
        LevelStatsOf(s.edges, userId, L2, month),
        LevelStatsOf(s.edges, userId, L3, month),
        a.pendingCredits,
        IsEligibleForCredit(a),
        a.pendingCredits >= AutoConversionThreshold,
        if toNext > 0.0 then toNext else 0.0,
        AutoConversionThreshold,
        a.completedRounds, RequiredRounds, a.acceptedReflections, RequiredReflections,
        CapProgress(combined, L2L3CombinedCap, Percentage(combined, L2L3CombinedCap)),
        CapProgress(total, TotalReferralsCap as real, Percentage(total, TotalReferralsCap as real)),
        baseUrl + "/invite?code=" + a.referralCode,
        a.credits))
  }

  /** The three per-level counts split the month's edges that the cap check counts. */
  lemma {:induction false} LevelCountsPartitionMonth(edges: seq<Edge>, id: Id, month: Month)
    ensures |Find(edges, AtLevelInMonth(id, L1, month))| + |Find(edges, AtLevelInMonth(id, L2, month))|
              + |Find(edges, AtLevelInMonth(id, L3, month))| == |MonthReferrals(edges, id, month)|
  {
    if edges != [] {
      LevelCountsPartitionMonth(edges[1..], id, month);
      var e := edges[0];
      assert Find(edges, InMonth(id, month)) ==
               (if Matches(InMonth(id, month), e) then [e] else []) + Find(edges[1..], InMonth(id, month));
      forall level: Level
        ensures Find(edges, AtLevelInMonth(id, level, month)) ==
                  (if Matches(AtLevelInMonth(id, level, month), e) then [e] else [])
                  + Find(edges[1..], AtLevelInMonth(id, level, month))
      {
      }
    }
  }

  /** The level-2 and level-3 credit sums make up the combined credit the cap check caps. */
  lemma {:induction false} UpperLevelsMakeCombinedCredit(edges: seq<Edge>, id: Id, month: Month)
    ensures LevelCredits(edges, id, L2, month) + LevelCredits(edges, id, L3, month) == L2L3Credits(edges, id, month)
  {
    if edges != [] {
      UpperLevelsMakeCombinedCredit(edges[1..], id, month);
      var e := edges[0];
      var q := InMonth(id, month);
      assert Find(edges, q) == (if Matches(q, e) then [e] else []) + Find(edges[1..], q);
      UpperLevelSumAppend(if Matches(q, e) then [e] else [], Find(edges[1..], q));
      LevelCreditsCons(edges, id, L2, month);
      LevelCreditsCons(edges, id, L3, month);
      if Matches(q, e) {
        assert UpperLevelSum([e]) == (if e.level == L2 || e.level == L3 then e.creditAmount else 0.0) + UpperLevelSum([]);
      }
    }
  }

  lemma LevelCreditsCons(edges: seq<Edge>, id: Id, level: Level, month: Month)
    requires edges != []
    ensures LevelCredits(edges, id, level, month) ==
              (if edges[0].referrer == id && edges[0].level == level && edges[0].month == month
               then edges[0].creditAmount else 0.0)
              + LevelCredits(edges[1..], id, level, month)
  {
    var q := AtLevelInMonth(id, level, month);
    var head := if Matches(q, edges[0]) then [edges[0]] else [];
    assert Find(edges, q) == head + Find(edges[1..], q);
    SumAppend(head, Find(edges[1..], q));
    if Matches(q, edges[0]) {
      assert Sum(head) == edges[0].creditAmount + Sum([]);
    }
  }

  /** When every edge carries its level's rate, a level's credit is its count times the rate. */
  lemma {:induction false} CanonicalLevelCredits(edges: seq<Edge>, id: Id, level: Level, month: Month)
    requires forall i :: 0 <= i < |edges| ==> edges[i].creditAmount == CreditAmount(edges[i].level)
    ensures LevelCredits(edges, id, level, month) ==
              |Find(edges, AtLevelInMonth(id, level, month))| as real * CreditAmount(level)
  {
    if edges != [] {
      CanonicalLevelCredits(edges[1..], id, level, month);
      LevelCreditsCons(edges, id, level, month);
      var q := AtLevelInMonth(id, level, month);
      assert Find(edges, q) == (if Matches(q, edges[0]) then [edges[0]] else []) + Find(edges[1..], q);
    }
  }
}
