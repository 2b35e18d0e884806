/**
 Who the L2 and L3 passes of a redemption pay, stated independently of the passes
 themselves. When the ancestor edges found name distinct referrers, a pass pays
 exactly the referrers that may be awarded in the store it starts from, once each,
 in the order the edges were found.
 */
module Passes {
  import opened User
  import opened Referral
  import opened Store
  import opened Caps
  import opened Redemption

  /** No two edges of `upline` name the same referrer. */
  predicate DistinctReferrers(upline: seq<Edge>)
  {
    forall i, j :: 0 <= i < j < |upline| ==> upline[i].referrer != upline[j].referrer
  }

  /** The referrers of `upline`, in order, that `s` lets receive an award at `level`. */
  function PaidAncestors(s: Store, upline: seq<Edge>, level: Level, month: Month): seq<Id>
  {
    if upline == [] then []
    else (if MayAward(s, upline[0].referrer, level, month) then [upline[0].referrer] else [])
         + PaidAncestors(s, upline[1..], level, month)
  }

  /** One pending award edge at `level`'s rate for each of `ids`, in order. */
  function AwardEdges(ids: seq<Id>, userId: Id, level: Level, month: Month): seq<Edge>
  {
    if ids == [] then []
    else [NewEdge(ids[0], userId, level, CreditAmount(level), month)] + AwardEdges(ids[1..], userId, level, month)
  }

  /** An account is paid exactly when an upline edge names it and it may be awarded. */
  lemma {:induction false} PaidAncestorsAreEligibleReferrers(s: Store, upline: seq<Edge>, level: Level, month: Month)
    ensures forall id :: id in PaidAncestors(s, upline, level, month) <==>
              id in Referrers(upline) && MayAward(s, id, level, month)
  {
    if upline != [] {
      PaidAncestorsAreEligibleReferrers(s, upline[1..], level, month);
      assert Referrers(upline) == {upline[0].referrer} + Referrers(upline[1..]) by {
        assert upline == [upline[0]] + upline[1..];
      }
    }
  }

  /** Paying one ancestor does not change whether any other account may be awarded. */
  lemma AwardAncestorKeepsOthersEligibility(s: Store, ancestor: Id, userId: Id, level: Level, month: Month, other: Id)
    requires other != ancestor
    ensures MayAward(AwardAncestor(s, ancestor, userId, level, month), other, level, month) ==
              MayAward(s, other, level, month)
  {
    if MayAward(s, ancestor, level, month) {
      var e := NewEdge(ancestor, userId, level, CreditAmount(level), month);
      CapIgnoresOtherAccountsAndMonths(s.edges, e, other, CreditAmount(level), month);
    }
  }

  lemma {:induction false} PaidAncestorsFrame(s: Store, t: Store, upline: seq<Edge>, level: Level, month: Month)
    requires forall j :: 0 <= j < |upline| ==>
               MayAward(t, upline[j].referrer, level, month) == MayAward(s, upline[j].referrer, level, month)
    ensures PaidAncestors(t, upline, level, month) == PaidAncestors(s, upline, level, month)
  {
    if upline != [] {
      assert forall j :: 0 <= j < |upline[1..]| ==> upline[1..][j] == upline[j + 1];
      PaidAncestorsFrame(s, t, upline[1..], level, month);
    }
  }

  /** The edges appended in two steps are those of the first step, then those of the second. */
  lemma AddedCompose(s: Store, t: Store, r: Store)
    requires |s.edges| <= |t.edges| <= |r.edges|
    requires t.edges[..|s.edges|] == s.edges && r.edges[..|t.edges|] == t.edges
    ensures Added(s, r) == Added(s, t) + Added(t, r)
  {
  }

  /** The edges one step of a pass appends: the ancestor's award, or nothing. */
  lemma AwardAncestorAdded(s: Store, ancestor: Id, userId: Id, level: Level, month: Month)
    ensures var s1 := AwardAncestor(s, ancestor, userId, level, month);
            && |s.edges| <= |s1.edges| && s1.edges[..|s.edges|] == s.edges
            && Added(s, s1) ==
                 if MayAward(s, ancestor, level, month)
                 then [NewEdge(ancestor, userId, level, CreditAmount(level), month)] else []
  {
  }

  /** The reference awards for an upline: those for its first edge, then those for the rest. */
  lemma AwardEdgesOfPaidStep(s: Store, upline: seq<Edge>, userId: Id, level: Level, month: Month)
    requires upline != []
    ensures AwardEdges(PaidAncestors(s, upline, level, month), userId, level, month) ==
              (if MayAward(s, upline[0].referrer, level, month)
               then [NewEdge(upline[0].referrer, userId, level, CreditAmount(level), month)] else [])
              + AwardEdges(PaidAncestors(s, upline[1..], level, month), userId, level, month)
  {
    var rest := PaidAncestors(s, upline[1..], level, month);
    if MayAward(s, upline[0].referrer, level, month) {
      var ids := [upline[0].referrer] + rest;
      assert PaidAncestors(s, upline, level, month) == ids;
      assert ids != [] && ids[0] == upline[0].referrer && ids[1..] == rest;
      assert AwardEdges(ids, userId, level, month) ==
               [NewEdge(ids[0], userId, level, CreditAmount(level), month)] + AwardEdges(ids[1..], userId, level, month);
    } else {
      assert PaidAncestors(s, upline, level, month) == rest;
    }
  }

  /**
   A pass over an upline with distinct referrers appends exactly one award for each
   referrer that may be awarded in the store the pass starts from, in upline order,
   and nothing else.
   */
  lemma {:induction false} AwardAllPaysEligibleAncestors(s: Store, upline: seq<Edge>, userId: Id, level: Level, month: Month)
    requires DistinctReferrers(upline)
    ensures Added(s, AwardAll(s, upline, userId, level, month)) ==
              AwardEdges(PaidAncestors(s, upline, level, month), userId, level, month)
    decreases |upline|
  {
    var r := AwardAll(s, upline, userId, level, month);
    if upline == [] {
      assert Added(s, r) == [];
    } else {
      var a := upline[0].referrer;
      var rest := upline[1..];
      var s1 := AwardAncestor(s, a, userId, level, month);
      assert r == AwardAll(s1, rest, userId, level, month);
      assert DistinctReferrers(rest) by {
        assert forall j :: 0 <= j < |rest| ==> rest[j] == upline[j + 1];
      }
      AwardAllPaysEligibleAncestors(s1, rest, userId, level, month);
      PassKeepsOthersEligibility(s, upline, userId, level, month);
      PaidAncestorsFrame(s, s1, rest, level, month);
      AwardAncestorAdded(s, a, userId, level, month);
      AddedCompose(s, s1, r);
      AwardEdgesOfPaidStep(s, upline, userId, level, month);
    }
  }

  /** After the first step of a pass over distinct referrers, the rest of the upline is as eligible as before. */
  lemma PassKeepsOthersEligibility(s: Store, upline: seq<Edge>, userId: Id, level: Level, month: Month)
    requires upline != [] && DistinctReferrers(upline)
    ensures forall j :: 0 <= j < |upline[1..]| ==>
              MayAward(AwardAncestor(s, upline[0].referrer, userId, level, month), upline[1..][j].referrer, level, month)
              == MayAward(s, upline[1..][j].referrer, level, month)
  {
    forall j | 0 <= j < |upline[1..]|
      ensures MayAward(AwardAncestor(s, upline[0].referrer, userId, level, month), upline[1..][j].referrer, level, month)
              == MayAward(s, upline[1..][j].referrer, level, month)
    {
      assert upline[1..][j] == upline[j + 1];
      AwardAncestorKeepsOthersEligibility(s, upline[0].referrer, userId, level, month, upline[1..][j].referrer);
    }
  }

  /** Two stores with the same log and the same active accounts agree on who may be awarded. */
  lemma SameActivitySameEligibility(s: Store, t: Store, level: Level, month: Month)
    requires t.edges == s.edges && t.accounts.Keys == s.accounts.Keys
    requires forall id :: id in s.accounts ==> t.accounts[id].isActive == s.accounts[id].isActive
    ensures forall id :: MayAward(t, id, level, month) == MayAward(s, id, level, month)
  {
  }

  /**
   The direct award of a redemption appends the owner's level-1 edge, which neither
   pass finds, and changes no account's activity.
   */
  lemma DirectStage(s: Store, userId: Id, owner: Id, month: Month)
    requires userId in s.accounts && owner in s.accounts && userId != owner
    ensures var direct := RecordAward(BindReferrer(s, userId, owner), owner, userId, L1, month);
            && direct.edges == s.edges + [NewEdge(owner, userId, L1, CreditAmount(L1), month)]
            && (forall id :: id in s.accounts ==> direct.accounts[id].isActive == s.accounts[id].isActive)
            && Find(direct.edges, Upline(owner, L1)) == Find(s.edges, Upline(owner, L1))
            && Find(direct.edges, Upline(owner, L2)) == Find(s.edges, Upline(owner, L2))
  {
    var bound := BindReferrer(s, userId, owner);
    var direct := RecordAward(bound, owner, userId, L1, month);
    forall id | id in s.accounts
      ensures direct.accounts[id].isActive == s.accounts[id].isActive
    {
      assert SameProfile(bound.accounts[id], direct.accounts[id]);
    }
    var l1 := NewEdge(owner, userId, L1, CreditAmount(L1), month);
    FindSnoc(s.edges, l1, Upline(owner, L1));
    FindSnoc(s.edges, l1, Upline(owner, L2));
  }

  /** The level-2 pass of a redemption appends no edge that the level-3 pass finds. */
  lemma SecondStage(direct: Store, up2: seq<Edge>, userId: Id, owner: Id, month: Month)
    requires userId != owner
    ensures var second := AwardAll(direct, up2, userId, L2, month);
            && second.edges == direct.edges + Added(direct, second)
            && Find(second.edges, Upline(owner, L2)) == Find(direct.edges, Upline(owner, L2))
  {
    var second := AwardAll(direct, up2, userId, L2, month);
    PassIsHiddenFromOtherUplines(direct, second, userId, owner, month);
  }

  /** The awards a level-2 pass for `userId` appends are not found as another account's ancestors. */
  lemma PassIsHiddenFromOtherUplines(before: Store, after: Store, userId: Id, owner: Id, month: Month)
    requires userId != owner
    requires |before.edges| <= |after.edges| && after.edges[..|before.edges|] == before.edges
    requires AppendsUplineAwards(before, after, userId, L2, month)
    ensures after.edges == before.edges + Added(before, after)
    ensures Find(after.edges, Upline(owner, L2)) == Find(before.edges, Upline(owner, L2))
  {
    var added := Added(before, after);
    assert after.edges == before.edges + added;
    forall i | 0 <= i < |added|
      ensures added[i].referred == userId
    {
      assert UplineAward(before, after.edges[|before.edges| + i], userId, L2, month);
    }
    AwardsToOthersAreNotUpline(before.edges, added, userId, owner, L2);
  }

  /** Edges appended for another referred account are not found as `owner`'s ancestors. */
  lemma AwardsToOthersAreNotUpline(before: seq<Edge>, added: seq<Edge>, userId: Id, owner: Id, level: Level)
    requires userId != owner
    requires forall i :: 0 <= i < |added| ==> added[i].referred == userId
    ensures Find(before + added, Upline(owner, level)) == Find(before, Upline(owner, level))
  {
    FindNone(added, Upline(owner, level));
    FindAppend(before, added, Upline(owner, level));
  }

  /**
   The stages of an admissible redemption that the caps allow. Both passes walk the
   ancestor edges of the code's owner as they stood before the redemption.
   */
  lemma RedemptionStages(s: Store, code: string, userId: Id, month: Month)
    requires UniqueCodes(s.accounts) && Admissible(s, code, userId)
    requires CheckMonthlyCaps(s.edges, CodeOwner(s, code).value, CreditAmount(L1), month).Allowed?
    ensures var owner := CodeOwner(s, code).value;
            var direct := RecordAward(BindReferrer(s, userId, owner), owner, userId, L1, month);
            var second := AwardAll(direct, Find(s.edges, Upline(owner, L1)), userId, L2, month);
            RedeemCode(s, code, userId, month).1 ==
              AwardAll(second, Find(s.edges, Upline(owner, L2)), userId, L3, month)
  {
    var owner := CodeOwner(s, code).value;
    RedeemCodeSteps(s, code, userId, month);
    DirectStage(s, userId, owner, month);
    var direct := RecordAward(BindReferrer(s, userId, owner), owner, userId, L1, month);
    SecondStage(direct, Find(s.edges, Upline(owner, L1)), userId, owner, month);
  }

  /**
   A successful redemption whose two uplines name distinct referrers appends the
   owner's level-1 edge, then one level-2 award for each level-1 ancestor of the owner
   that may be awarded once that edge is recorded, then one level-3 award for each
   level-2 ancestor that may be awarded once the level-2 awards are recorded. The
   ancestors are those the log named before the redemption.
   */
  lemma RedeemCodePaysUpline(s: Store, code: string, userId: Id, month: Month)
    requires UniqueCodes(s.accounts) && Admissible(s, code, userId)
    requires CheckMonthlyCaps(s.edges, CodeOwner(s, code).value, CreditAmount(L1), month).Allowed?
    requires DistinctReferrers(Find(s.edges, Upline(CodeOwner(s, code).value, L1)))
    requires DistinctReferrers(Find(s.edges, Upline(CodeOwner(s, code).value, L2)))
    ensures var owner := CodeOwner(s, code).value;
            var l1 := NewEdge(owner, userId, L1, CreditAmount(L1), month);
            var paid2 := PaidAncestors(Store(s.accounts, s.edges + [l1]), Find(s.edges, Upline(owner, L1)), L2, month);
            var l2s := AwardEdges(paid2, userId, L2, month);
            var paid3 := PaidAncestors(Store(s.accounts, s.edges + [l1] + l2s), Find(s.edges, Upline(owner, L2)), L3, month);
            RedeemCode(s, code, userId, month).1.edges == s.edges + [l1] + l2s + AwardEdges(paid3, userId, L3, month)
  {
    var owner := CodeOwner(s, code).value;
    RedemptionStages(s, code, userId, month);
    DirectStage(s, userId, owner, month);
    var direct := RecordAward(BindReferrer(s, userId, owner), owner, userId, L1, month);
    var second := AwardAll(direct, Find(s.edges, Upline(owner, L1)), userId, L2, month);
    PassAppendsPaid(s, direct, Find(s.edges, Upline(owner, L1)), userId, L2, month);
    PassAppendsPaid(s, second, Find(s.edges, Upline(owner, L2)), userId, L3, month);
  }

  /**
   A pass, started from a store with the same accounts and activity as `s`, appends
   the reference awards computed from `s`'s accounts and the log as the pass finds it,
   and changes no account's activity.
   */
  lemma PassAppendsPaid(s: Store, x: Store, upline: seq<Edge>, userId: Id, level: Level, month: Month)
    requires DistinctReferrers(upline)
    requires x.accounts.Keys == s.accounts.Keys
    requires forall id :: id in s.accounts ==> x.accounts[id].isActive == s.accounts[id].isActive
    ensures var r := AwardAll(x, upline, userId, level, month);
            && r.edges == x.edges + AwardEdges(PaidAncestors(Store(s.accounts, x.edges), upline, level, month), userId, level, month)
            && r.accounts.Keys == s.accounts.Keys
            && (forall id :: id in s.accounts ==> r.accounts[id].isActive == s.accounts[id].isActive)
  {
    var r := AwardAll(x, upline, userId, level, month);
    SameActivitySameEligibility(Store(s.accounts, x.edges), x, level, month);
    PaidAncestorsFrame(Store(s.accounts, x.edges), x, upline, level, month);
    AwardAllPaysEligibleAncestors(x, upline, userId, level, month);
    assert r.edges == x.edges + Added(x, r) by {
      assert r.edges[..|x.edges|] == x.edges;
    }
    PassKeepsActivity(x, upline, userId, level, month);
  }

  /** A pass changes no account's activity. */
  lemma PassKeepsActivity(x: Store, upline: seq<Edge>, userId: Id, level: Level, month: Month)
    ensures var r := AwardAll(x, upline, userId, level, month);
            forall id :: id in x.accounts ==> r.accounts[id].isActive == x.accounts[id].isActive
  {
    var r := AwardAll(x, upline, userId, level, month);
    forall id | id in x.accounts
      ensures r.accounts[id].isActive == x.accounts[id].isActive
    {
      assert SameProfile(x.accounts[id], r.accounts[id]);
    }
  }

  /**
   When the owner is not among its own ancestors, a successful redemption leaves the
   owner's account exactly as the direct award made it: its statistics rolled over to
   the month, the rate accrued with auto-conversion, and one more referral counted.
   */
  lemma RedeemCodeCountsDirectAward(s: Store, code: string, userId: Id, month: Month)
    requires UniqueCodes(s.accounts) && Admissible(s, code, userId)
    requires CheckMonthlyCaps(s.edges, CodeOwner(s, code).value, CreditAmount(L1), month).Allowed?
    requires CodeOwner(s, code).value !in Referrers(Find(s.edges, Upline(CodeOwner(s, code).value, L1)))
    requires CodeOwner(s, code).value !in Referrers(Find(s.edges, Upline(CodeOwner(s, code).value, L2)))
    ensures var owner := CodeOwner(s, code).value;
            var after := RedeemCode(s, code, userId, month).1.accounts[owner];
            var credited := AddFractionalCredits(ResetMonthlyStats(s.accounts[owner], month), CreditAmount(L1)).0;
            && after == credited.(monthlyStats := CountAward(credited.monthlyStats, L1))
            && after.monthlyStats.totalReferrals ==
                 ResetMonthlyStats(s.accounts[owner], month).monthlyStats.totalReferrals + 1
  {
    var owner := CodeOwner(s, code).value;
    RedemptionStages(s, code, userId, month);
    DirectStage(s, userId, owner, month);
    var bound := BindReferrer(s, userId, owner);
    RecordAwardAccount(bound, owner, userId, L1, month);
  }
}
