/**
 Redemption of a referral code. The redeeming account is validated and bound to the
 code's owner; the owner receives the L1 award, which the caps may refuse (a
 failure of the whole operation); then every ancestor found through the stored
 edges receives a best-effort L2 or L3 award, silently skipped when the ancestor is
 missing, inactive or over its cap.
 */
module Redemption {
  import opened Outcomes
  import opened User
  import opened Referral
  import opened Store
  import opened Caps

  datatype RedeemError =
    | MissingInput
    | InvalidCode
    | UserNotFound
    | AlreadyReferred
    | SelfReferral
    | CapDenied(reason: DenialReason)
  {
    /** The HTTP status the error is answered with. */
    function StatusCode(): int
    {
      match this
      case InvalidCode => 404
      case UserNotFound => 404
      case _ => 400
    }

    function Message(): string
    {
      match this
      case MissingInput => "Referral code and user ID are required"
      case InvalidCode => "Invalid referral code"
      case UserNotFound => "User not found"
      case AlreadyReferred => "User is already referred"
      case SelfReferral => "Cannot refer yourself"
      case CapDenied(reason) => reason.Message()
    }
  }

  /** The success answer: it only ever reports the direct award. */
  datatype Redeemed = Redeemed(referralLevel: int, creditAmount: real)

  /** True when `b` differs from `a` at most in its balances and monthly statistics. */
  predicate SameProfile(a: Account, b: Account)
  {
    b == a.(credits := b.credits, pendingCredits := b.pendingCredits, monthlyStats := b.monthlyStats)
  }

  /** The edges appended to `before.edges` to give `after.edges`. */
  function Added(before: Store, after: Store): seq<Edge>
    requires |before.edges| <= |after.edges|
  {
    after.edges[|before.edges|..]
  }

  /** The account owning `code` once it is upper-cased. */
  function CodeOwner(s: Store, code: string): (r: Option<Id>)
    requires UniqueCodes(s.accounts)
    ensures r.Some? ==> r.value in s.accounts && s.accounts[r.value].referralCode == ToUpper(code)
    ensures r.None? ==> forall id :: id in s.accounts ==> s.accounts[id].referralCode != ToUpper(code)
  {
    FindByCode(s.accounts, ToUpper(code))
  }

  /** Under unique codes, the account holding the upper-cased code is the one found. */
  lemma CodeOwnerIsHolder(s: Store, code: string, id: Id)
    requires UniqueCodes(s.accounts)
    requires id in s.accounts && s.accounts[id].referralCode == ToUpper(code)
    ensures CodeOwner(s, code) == Some(id)
  {
  }

  /** The typed casing of a code does not matter: its upper-cased form finds the same owner. */
  lemma CodeOwnerIgnoresCase(s: Store, code: string)
    requires UniqueCodes(s.accounts)
    ensures CodeOwner(s, ToUpper(code)) == CodeOwner(s, code)
  {
    ToUpperIsIdempotent(code);
  }

  /** The redeeming account records its referrer, at level 1. */
  function BindReferrer(s: Store, userId: Id, referrer: Id): (r: Store)
    requires userId in s.accounts
    ensures r.edges == s.edges && r.accounts.Keys == s.accounts.Keys
    ensures r.accounts[userId].referredBy == Some(referrer) && r.accounts[userId].referralLevel == 1
    ensures r.accounts[userId] == s.accounts[userId].(referredBy := Some(referrer), referralLevel := 1)
    ensures forall id :: id in s.accounts && id != userId ==> r.accounts[id] == s.accounts[id]
  {
    var user := s.accounts[userId];
    s.(accounts := s.accounts[userId := user.(referredBy := Some(referrer), referralLevel := 1)])
  }

  /** The monthly statistics after counting one award at `level`. */
  function CountAward(stats: MonthlyStats, level: Level): (r: MonthlyStats)
    ensures r.month == stats.month && r.totalReferrals == stats.totalReferrals + 1
    ensures r.l2Credits == stats.l2Credits + (if level == L2 then CreditAmount(L2) else 0.0)
    ensures r.l3Credits == stats.l3Credits + (if level == L3 then CreditAmount(L3) else 0.0)
  {
    match level
    case L1 => stats.(totalReferrals := stats.totalReferrals + 1)
    case L2 => stats.(l2Credits := stats.l2Credits + CreditAmount(L2), totalReferrals := stats.totalReferrals + 1)
    case L3 => stats.(l3Credits := stats.l3Credits + CreditAmount(L3), totalReferrals := stats.totalReferrals + 1)
  }

  /**
   Records an award the caps allowed: the ancestor's statistics roll over to `month`,
   one edge at the level's rate is appended, the rate is accrued with auto-conversion
   and the award is counted in the statistics.
   */
  function RecordAward(s: Store, ancestor: Id, userId: Id, level: Level, month: Month): (r: Store)
    requires ancestor in s.accounts
    ensures r.accounts.Keys == s.accounts.Keys
    ensures r.edges == s.edges + [NewEdge(ancestor, userId, level, CreditAmount(level), month)]
    ensures forall id :: id in s.accounts && id != ancestor ==> r.accounts[id] == s.accounts[id]
    ensures SameProfile(s.accounts[ancestor], r.accounts[ancestor])
    ensures Balance(r.accounts[ancestor]) == Balance(s.accounts[ancestor]) + CreditAmount(level)
    ensures s.accounts[ancestor].pendingCredits >= 0.0 ==> 0.0 <= r.accounts[ancestor].pendingCredits < 1.0
    ensures r.accounts[ancestor].monthlyStats ==
              CountAward(ResetMonthlyStats(s.accounts[ancestor], month).monthlyStats, level)
  {
    var rolled := ResetMonthlyStats(s.accounts[ancestor], month);
    var (credited, _) := AddFractionalCredits(rolled, CreditAmount(level));
    var counted := credited.(monthlyStats := CountAward(credited.monthlyStats, level));
    Store(s.accounts[ancestor := counted], s.edges + [NewEdge(ancestor, userId, level, CreditAmount(level), month)])
  }

  /** The awarded account after `RecordAward`, step by step. */
  lemma RecordAwardAccount(s: Store, ancestor: Id, userId: Id, level: Level, month: Month)
    requires ancestor in s.accounts
    ensures var credited := AddFractionalCredits(ResetMonthlyStats(s.accounts[ancestor], month), CreditAmount(level)).0;
            RecordAward(s, ancestor, userId, level, month).accounts[ancestor] ==
              credited.(monthlyStats := CountAward(credited.monthlyStats, level))
  {
  }

  /** The L2/L3 awards go to existing, active ancestors that pass their caps. */
  predicate MayAward(s: Store, ancestor: Id, level: Level, month: Month)
  {
    && ancestor in s.accounts
    && s.accounts[ancestor].isActive
    && CheckMonthlyCaps(s.edges, ancestor, CreditAmount(level), month).Allowed?
  }

  /** The facts every edge appended by an L2/L3 pass satisfies. */
  predicate UplineAward(s: Store, e: Edge, userId: Id, level: Level, month: Month)
  {
    && e.referred == userId && e.level == level && e.creditAmount == CreditAmount(level)
    && e.month == month && e.status == Pending
    && e.referrer in s.accounts && s.accounts[e.referrer].isActive
  }

  /**
   Every account of `s` is still present in `r` and keeps everything but its balances
   and statistics; `r`'s edges extend `s`'s, and each account's balance grew by exactly
   the credit of the appended edges in its name.
   */
  ghost predicate Follows(s: Store, r: Store)
  {
    && r.accounts.Keys == s.accounts.Keys
    && |s.edges| <= |r.edges|
    && r.edges[..|s.edges|] == s.edges
    && (forall id :: id in s.accounts ==> SameProfile(s.accounts[id], r.accounts[id]))
    && (forall id :: id in s.accounts ==>
          Balance(r.accounts[id]) == Balance(s.accounts[id]) + CreditedIn(Added(s, r), id))
  }

  lemma FollowsTransitive(s: Store, t: Store, r: Store)
    requires Follows(s, t) && Follows(t, r)
    ensures Follows(s, r)
  {
    assert r.edges[..|s.edges|] == t.edges[..|s.edges|];
    assert Added(s, r) == Added(s, t) + Added(t, r);
    forall id | id in s.accounts
      ensures Balance(r.accounts[id]) == Balance(s.accounts[id]) + CreditedIn(Added(s, r), id)
    {
      CreditedInAppend(Added(s, t), Added(t, r), id);
    }
  }

  /** Every edge `r` appends to `s` is an L2/L3 award of the rate of `level` to an active account of `s`. */
  ghost predicate AppendsUplineAwards(s: Store, r: Store, userId: Id, level: Level, month: Month)
    requires |s.edges| <= |r.edges|
  {
    forall i :: |s.edges| <= i < |r.edges| ==> UplineAward(s, r.edges[i], userId, level, month)
  }

  lemma UplineAwardsCompose(s: Store, t: Store, r: Store, userId: Id, level: Level, month: Month)
    requires Follows(s, t) && Follows(t, r)
    requires |t.edges| <= |s.edges| + 1
    requires |t.edges| == |s.edges| + 1 ==> UplineAward(s, t.edges[|s.edges|], userId, level, month)
    requires AppendsUplineAwards(t, r, userId, level, month)
    ensures AppendsUplineAwards(s, r, userId, level, month)
  {
    forall i | |s.edges| <= i < |r.edges|
      ensures UplineAward(s, r.edges[i], userId, level, month)
    {
      if i < |t.edges| {
        assert r.edges[..|t.edges|] == t.edges;
        assert r.edges[i] == t.edges[i];
      } else {
        var e := r.edges[i];
        assert UplineAward(t, e, userId, level, month);
        assert SameProfile(s.accounts[e.referrer], t.accounts[e.referrer]);
      }
    }
  }

  lemma RecordAwardFollows(s: Store, ancestor: Id, userId: Id, level: Level, month: Month)
    requires ancestor in s.accounts
    ensures Follows(s, RecordAward(s, ancestor, userId, level, month))
  {
    var r := RecordAward(s, ancestor, userId, level, month);
    var e := NewEdge(ancestor, userId, level, CreditAmount(level), month);
    assert Added(s, r) == [e];
    forall id | id in s.accounts
      ensures Balance(r.accounts[id]) == Balance(s.accounts[id]) + CreditedIn(Added(s, r), id)
    {
      CreditedInSingle(e, id);
    }
  }

  /** One iteration of an L2/L3 pass: award `ancestor` when it may be awarded, else skip silently. */
  function AwardAncestor(s: Store, ancestor: Id, userId: Id, level: Level, month: Month): (r: Store)
    ensures Follows(s, r)
    ensures MayAward(s, ancestor, level, month) ==> r == RecordAward(s, ancestor, userId, level, month)
    ensures MayAward(s, ancestor, level, month) ==>
              r.edges == s.edges + [NewEdge(ancestor, userId, level, CreditAmount(level), month)]
    ensures !MayAward(s, ancestor, level, month) ==> r == s
    ensures forall id :: id in s.accounts && id != ancestor ==> r.accounts[id] == s.accounts[id]
  {
    if MayAward(s, ancestor, level, month) then
      RecordAwardFollows(s, ancestor, userId, level, month);
      RecordAward(s, ancestor, userId, level, month)
    else
      assert Added(s, s) == [];
      forall id | id in s.accounts
        ensures CreditedIn(Added(s, s), id) == 0.0
      {
        CreditedInEmpty(id);
      }
      s
  }

  /** The accounts named as referrer by the edges of `upline`. */
  function Referrers(upline: seq<Edge>): set<Id>
  {
    set e | e in upline :: e.referrer
  }

  /**
   A whole L2/L3 pass over the ancestor edges found, in the order the store returned
   them: only referrers of those edges are paid, and every other account is untouched.
   */
  function AwardAll(s: Store, upline: seq<Edge>, userId: Id, level: Level, month: Month): (r: Store)
    decreases |upline|
    ensures Follows(s, r)
    ensures |r.edges| <= |s.edges| + |upline|
    ensures AppendsUplineAwards(s, r, userId, level, month)
    ensures forall i :: |s.edges| <= i < |r.edges| ==> r.edges[i].referrer in Referrers(upline)
    ensures forall id :: id in s.accounts && id !in Referrers(upline) ==> r.accounts[id] == s.accounts[id]
  {
    if upline == [] then
      assert Added(s, s) == [];
      forall id | id in s.accounts
        ensures CreditedIn(Added(s, s), id) == 0.0
      {
        CreditedInEmpty(id);
      }
      s
    else
      var s1 := AwardAncestor(s, upline[0].referrer, userId, level, month);
      var r := AwardAll(s1, upline[1..], userId, level, month);
      FollowsTransitive(s, s1, r);
      UplineAwardsCompose(s, s1, r, userId, level, month);
      PassStepPaysOnlyReferrers(s, s1, r, upline, userId, level, month);
      r
  }

  /** One step of a pass, followed by the rest of it, pays only referrers of the whole upline. */
  lemma PassStepPaysOnlyReferrers(s: Store, s1: Store, r: Store, upline: seq<Edge>, userId: Id, level: Level, month: Month)
    requires upline != []
    requires s1.accounts.Keys == s.accounts.Keys && r.accounts.Keys == s1.accounts.Keys
    requires forall id :: id in s.accounts && id != upline[0].referrer ==> s1.accounts[id] == s.accounts[id]
    requires |s.edges| <= |s1.edges| <= |s.edges| + 1 && s1.edges[..|s.edges|] == s.edges
    requires |s1.edges| == |s.edges| + 1 ==> s1.edges[|s.edges|].referrer == upline[0].referrer
    requires |s1.edges| <= |r.edges| && r.edges[..|s1.edges|] == s1.edges
    requires forall i :: |s1.edges| <= i < |r.edges| ==> r.edges[i].referrer in Referrers(upline[1..])
    requires forall id :: id in s1.accounts && id !in Referrers(upline[1..]) ==> r.accounts[id] == s1.accounts[id]
    ensures forall i :: |s.edges| <= i < |r.edges| ==> r.edges[i].referrer in Referrers(upline)
    ensures forall id :: id in s.accounts && id !in Referrers(upline) ==> r.accounts[id] == s.accounts[id]
  {
    assert Referrers(upline) == {upline[0].referrer} + Referrers(upline[1..]) by {
      assert upline == [upline[0]] + upline[1..];
    }
    forall i | |s.edges| <= i < |r.edges|
      ensures r.edges[i].referrer in Referrers(upline)
    {
      if i < |s1.edges| {
        assert r.edges[i] == s1.edges[i];
        assert i == |s.edges|;
      }
    }
  }

  /** Every check `redeemCode` makes before it mutates anything passes. */
  predicate Admissible(s: Store, code: string, userId: Id)
    requires UniqueCodes(s.accounts)
  {
    && code != "" && userId != ""
    && CodeOwner(s, code).Some?
    && userId in s.accounts
    && s.accounts[userId].referredBy.None?
    && CodeOwner(s, code).value != userId
  }

  /** The store a redemption that passed validation and the direct cap check ends in, step by step. */
  lemma RedeemCodeSteps(s: Store, code: string, userId: Id, month: Month)
    requires UniqueCodes(s.accounts) && Admissible(s, code, userId)
    requires CheckMonthlyCaps(s.edges, CodeOwner(s, code).value, CreditAmount(L1), month).Allowed?
    ensures var referrer := CodeOwner(s, code).value;
            var direct := RecordAward(BindReferrer(s, userId, referrer), referrer, userId, L1, month);
            var second := AwardAll(direct, Find(direct.edges, Upline(referrer, L1)), userId, L2, month);
            RedeemCode(s, code, userId, month).1 ==
              AwardAll(second, Find(second.edges, Upline(referrer, L2)), userId, L3, month)
  {
  }

  /**
   `redeemCode`: validation (missing input, unknown code, unknown user, already
   referred, self-referral, in that order, each leaving the store unchanged), then the
   binding of the redeemer, the L1 award, and the L2 and L3 passes.
   */
  function RedeemCode(s: Store, code: string, userId: Id, month: Month): (r: (Result<Redeemed, RedeemError>, Store))
    requires UniqueCodes(s.accounts)
    ensures code == "" || userId == "" ==> r == (Err(MissingInput), s)
    ensures r.0 == Err(InvalidCode) <==> code != "" && userId != "" && CodeOwner(s, code).None?
    ensures r.0 == Err(UserNotFound) <==>
              code != "" && userId != "" && CodeOwner(s, code).Some? && userId !in s.accounts
    ensures r.0 == Err(AlreadyReferred) <==>
              && code != "" && userId != "" && CodeOwner(s, code).Some? && userId in s.accounts
              && s.accounts[userId].referredBy.Some?
    ensures r.0 == Err(SelfReferral) <==>
              && code != "" && userId != "" && CodeOwner(s, code).Some? && userId in s.accounts
              && s.accounts[userId].referredBy.None? && CodeOwner(s, code).value == userId
    ensures !Admissible(s, code, userId) ==> r.0.Err? && r.1 == s
    ensures Admissible(s, code, userId) ==>
              var owner := CodeOwner(s, code).value;
              var cap := CheckMonthlyCaps(s.edges, owner, CreditAmount(L1), month);
              && (cap.Allowed? ==> r.0 == Ok(Redeemed(1, CreditAmount(L1))))
              && (cap.Denied? ==> r == (Err(CapDenied(cap.reason)), BindReferrer(s, userId, owner)))
    ensures r.0.Ok? ==>
              var owner := CodeOwner(s, code).value;
              var after := r.1;
              && Admissible(s, code, userId)
              && after.accounts.Keys == s.accounts.Keys
              && after.accounts[userId].referredBy == Some(owner) && after.accounts[userId].referralLevel == 1
              && SameProfile(s.accounts[userId].(referredBy := Some(owner), referralLevel := 1), after.accounts[userId])
              && (forall id :: id in s.accounts && id != userId ==> SameProfile(s.accounts[id], after.accounts[id]))
              && |s.edges| < |after.edges| && after.edges[..|s.edges|] == s.edges
              && after.edges[|s.edges|] == NewEdge(owner, userId, L1, CreditAmount(L1), month)
              && (forall i :: |s.edges| < i < |after.edges| ==>
                    && after.edges[i].level != L1 && after.edges[i].referred == userId
                    && after.edges[i].creditAmount == CreditAmount(after.edges[i].level)
                    && after.edges[i].month == month && after.edges[i].status == Pending)
              && (forall id :: id in s.accounts ==>
                    Balance(after.accounts[id]) == Balance(s.accounts[id]) + CreditedIn(Added(s, after), id))
  {
    if code == "" || userId == "" then
      (Err(MissingInput), s)
    else
      var owner := CodeOwner(s, code);
      if owner.None? then
        (Err(InvalidCode), s)
      else if userId !in s.accounts then
        (Err(UserNotFound), s)
      else if s.accounts[userId].referredBy.Some? then
        (Err(AlreadyReferred), s)
      else if owner.value == userId then
        (Err(SelfReferral), s)
      else
        var referrer := owner.value;
        var bound := BindReferrer(s, userId, referrer);
        var cap := CheckMonthlyCaps(bound.edges, referrer, CreditAmount(L1), month);
        if cap.Denied? then
          (Err(CapDenied(cap.reason)), bound)
        else
          var direct := RecordAward(bound, referrer, userId, L1, month);
          var second := AwardAll(direct, Find(direct.edges, Upline(referrer, L1)), userId, L2, month);
          var third := AwardAll(second, Find(second.edges, Upline(referrer, L2)), userId, L3, month);
          SuccessEffects(s, bound, direct, second, third, referrer, userId, month);
          (Ok(Redeemed(1, CreditAmount(L1))), third)
  }

  /** Assembles the contract of a successful redemption from the contracts of its steps. */
  lemma SuccessEffects(s: Store, bound: Store, direct: Store, second: Store, third: Store,
                       referrer: Id, userId: Id, month: Month)
    requires userId in s.accounts && referrer in s.accounts && referrer != userId
    requires bound == BindReferrer(s, userId, referrer)
    requires direct == RecordAward(bound, referrer, userId, L1, month)
    requires Follows(direct, second) && AppendsUplineAwards(direct, second, userId, L2, month)
    requires Follows(second, third) && AppendsUplineAwards(second, third, userId, L3, month)
    ensures third.accounts.Keys == s.accounts.Keys
    ensures third.accounts[userId].referredBy == Some(referrer) && third.accounts[userId].referralLevel == 1
    ensures SameProfile(s.accounts[userId].(referredBy := Some(referrer), referralLevel := 1), third.accounts[userId])
    ensures forall id :: id in s.accounts && id != userId ==> SameProfile(s.accounts[id], third.accounts[id])
    ensures |s.edges| < |third.edges| && third.edges[..|s.edges|] == s.edges
    ensures third.edges[|s.edges|] == NewEdge(referrer, userId, L1, CreditAmount(L1), month)
    ensures forall i :: |s.edges| < i < |third.edges| ==>
              && third.edges[i].level != L1 && third.edges[i].referred == userId
              && third.edges[i].creditAmount == CreditAmount(third.edges[i].level)
              && third.edges[i].month == month && third.edges[i].status == Pending
    ensures forall id :: id in s.accounts ==>
              Balance(third.accounts[id]) == Balance(s.accounts[id]) + CreditedIn(Added(s, third), id)
  {
    RecordAwardFollows(bound, referrer, userId, L1, month);
    FollowsTransitive(bound, direct, second);
    FollowsTransitive(bound, second, third);
    assert direct.edges == s.edges + [NewEdge(referrer, userId, L1, CreditAmount(L1), month)];
    SuccessEdges(s, direct, second, third, referrer, userId, month);
    SuccessBalances(s, bound, third, userId, referrer);
  }

  /** The edge facts of a successful redemption: the L1 edge first, then the L2 and L3 awards. */
  lemma SuccessEdges(s: Store, direct: Store, second: Store, third: Store, referrer: Id, userId: Id, month: Month)
    requires direct.edges == s.edges + [NewEdge(referrer, userId, L1, CreditAmount(L1), month)]
    requires |direct.edges| <= |second.edges| && second.edges[..|direct.edges|] == direct.edges
    requires |second.edges| <= |third.edges| && third.edges[..|second.edges|] == second.edges
    requires AppendsUplineAwards(direct, second, userId, L2, month)
    requires AppendsUplineAwards(second, third, userId, L3, month)
    ensures |s.edges| < |third.edges| && third.edges[..|s.edges|] == s.edges
    ensures third.edges[|s.edges|] == NewEdge(referrer, userId, L1, CreditAmount(L1), month)
    ensures forall i :: |s.edges| < i < |third.edges| ==>
              && third.edges[i].level != L1 && third.edges[i].referred == userId
              && third.edges[i].creditAmount == CreditAmount(third.edges[i].level)
              && third.edges[i].month == month && third.edges[i].status == Pending
  {
    assert third.edges[..|second.edges|] == second.edges;
    assert second.edges[..|direct.edges|] == direct.edges;
    assert third.edges[..|direct.edges|] == direct.edges;
    forall i | |s.edges| < i < |third.edges|
      ensures && third.edges[i].level != L1 && third.edges[i].referred == userId
              && third.edges[i].creditAmount == CreditAmount(third.edges[i].level)
              && third.edges[i].month == month && third.edges[i].status == Pending
    {
      if i < |second.edges| {
        assert third.edges[i] == second.edges[i];
        assert UplineAward(direct, second.edges[i], userId, L2, month);
      } else {
        assert UplineAward(second, third.edges[i], userId, L3, month);
      }
    }
  }

  /** The account facts of a successful redemption: the binding, and balances grown by the appended credit. */
  lemma SuccessBalances(s: Store, bound: Store, third: Store, userId: Id, referrer: Id)
    requires userId in s.accounts
    requires bound == BindReferrer(s, userId, referrer)
    requires Follows(bound, third)
    ensures third.accounts.Keys == s.accounts.Keys
    ensures third.accounts[userId].referredBy == Some(referrer) && third.accounts[userId].referralLevel == 1
    ensures SameProfile(s.accounts[userId].(referredBy := Some(referrer), referralLevel := 1), third.accounts[userId])
    ensures forall id :: id in s.accounts && id != userId ==> SameProfile(s.accounts[id], third.accounts[id])
    ensures forall id :: id in s.accounts ==>
              Balance(third.accounts[id]) == Balance(s.accounts[id]) + CreditedIn(Added(s, third), id)
  {
    assert Added(s, third) == Added(bound, third);
    assert SameProfile(bound.accounts[userId], third.accounts[userId]);
    forall id | id in s.accounts
      ensures Balance(third.accounts[id]) == Balance(s.accounts[id]) + CreditedIn(Added(s, third), id)
    {
      assert Balance(bound.accounts[id]) == Balance(s.accounts[id]);
    }
  }

  /** A redemption keeps every account's code, so the codes stay unique. */
  lemma RedeemCodeKeepsCodes(s: Store, code: string, userId: Id, month: Month)
    requires UniqueCodes(s.accounts)
    ensures var after := RedeemCode(s, code, userId, month).1;
            && after.accounts.Keys == s.accounts.Keys
            && (forall id :: id in s.accounts ==> after.accounts[id].referralCode == s.accounts[id].referralCode)
            && UniqueCodes(after.accounts)
  {
    var (res, after) := RedeemCode(s, code, userId, month);
    if res.Ok? {
      forall id | id in s.accounts
        ensures after.accounts[id].referralCode == s.accounts[id].referralCode
      {
        if id == userId {
          assert SameProfile(s.accounts[userId].(referredBy := after.accounts[userId].referredBy, referralLevel := 1), after.accounts[userId]);
        } else {
          assert SameProfile(s.accounts[id], after.accounts[id]);
        }
      }
    }
  }

  /**
   Once a redemption has bound the account, whether it then succeeded or was refused
   by the caps, every later redemption by the same account is refused without any
   change, as already referred whenever its code is valid.
   */
  lemma RedeemCodeAtMostOnce(s: Store, code: string, userId: Id, month: Month, code2: string, month2: Month)
    requires UniqueCodes(s.accounts)
    ensures UniqueCodes(RedeemCode(s, code, userId, month).1.accounts)
    ensures var (r1, s1) := RedeemCode(s, code, userId, month);
            var r2 := RedeemCode(s1, code2, userId, month2);
            (r1.Ok? || r1.error.CapDenied?) ==>
              && r2.0.Err? && r2.1 == s1
              && (code2 != "" && CodeOwner(s1, code2).Some? ==> r2.0 == Err(AlreadyReferred))
  {
    RedeemCodeKeepsCodes(s, code, userId, month);
    var (r1, s1) := RedeemCode(s, code, userId, month);
    if r1.Ok? || r1.error.CapDenied? {
      assert userId in s1.accounts && s1.accounts[userId].referredBy.Some?;
    }
  }
}
