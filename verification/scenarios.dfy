/**
 Worked stores: small concrete situations in which the engine's outcome is stated
 exactly, so that each of its rules can be seen acting on data.
 */
module Scenarios {
  import opened Outcomes
  import opened User
  import opened Referral
  import opened Store
  import opened Caps
  import opened Redemption
  import opened Conversion
  import opened Passes

  /**
   A direct award to an account with nothing pending and statistics of the current
   month: one whole credit is confirmed at once and the award is counted.
   */
  lemma DirectAwardOnNothingPending(s: Store, ref: Id, user: Id, month: Month)
    requires ref in s.accounts
    requires s.accounts[ref].pendingCredits == 0.0 && s.accounts[ref].monthlyStats == FreshStats(month)
    ensures var r := s.accounts[ref];
            RecordAward(s, ref, user, L1, month).accounts[ref] ==
              r.(credits := r.credits + 1.0, monthlyStats := MonthlyStats(0.0, 0.0, 1, month))
  {
    FirstDirectAwardLeavesNothingPending(s.accounts[ref]);
    RecordAwardAccount(s, ref, user, L1, month);
  }

  /**
   An L2 award to an account with nothing pending and statistics of the current month
   stays pending, below the threshold, and is counted in the L2 credit.
   */
  lemma SecondLevelAwardOnNothingPending(s: Store, ancestor: Id, user: Id, month: Month)
    requires ancestor in s.accounts
    requires s.accounts[ancestor].pendingCredits == 0.0 && s.accounts[ancestor].monthlyStats == FreshStats(month)
    ensures RecordAward(s, ancestor, user, L2, month).accounts[ancestor] ==
              s.accounts[ancestor].(pendingCredits := 0.25, monthlyStats := MonthlyStats(0.25, 0.0, 1, month))
  {
    RecordAwardAccount(s, ancestor, user, L2, month);
  }

  /**
   A referrer with nothing pending and an unreferred account, nothing recorded yet:
   redeeming the referrer's code (in any letter case) earns it the direct award of 1.0,
   which reaches the auto-conversion threshold at once, so it ends with one more
   confirmed credit and nothing pending; the redeemer is bound to it.
   */
  lemma DirectAwardConvertsAtOnce(s: Store, ref: Id, user: Id, code: string, month: Month)
    requires UniqueCodes(s.accounts) && s.edges == []
    requires ref != user && user != "" && code != ""
    requires ref in s.accounts && user in s.accounts
    requires s.accounts[ref].referralCode == ToUpper(code)
    requires s.accounts[ref].pendingCredits == 0.0 && s.accounts[ref].monthlyStats == FreshStats(month)
    requires s.accounts[user].referredBy.None?
    ensures var (res, after) := RedeemCode(s, code, user, month);
            && res == Ok(Redeemed(1, 1.0))
            && after.accounts[ref] == s.accounts[ref].(credits := s.accounts[ref].credits + 1.0,
                                                       monthlyStats := MonthlyStats(0.0, 0.0, 1, month))
            && after.accounts[user] == s.accounts[user].(referredBy := Some(ref), referralLevel := 1)
            && after.edges == [NewEdge(ref, user, L1, 1.0, month)]
  {
    CodeOwnerIsHolder(s, code, ref);
    assert Admissible(s, code, user);
    RedeemCodeSteps(s, code, user, month);
    LoneDirectAward(s, ref, user, month);
    LoneEdgePasses(RecordAward(BindReferrer(s, user, ref), ref, user, L1, month), ref, user, month);
  }

  /** The direct award on an empty log: allowed, converted at once, and the only edge. */
  lemma LoneDirectAward(s: Store, ref: Id, user: Id, month: Month)
    requires ref != user && ref in s.accounts && user in s.accounts && s.edges == []
    requires s.accounts[ref].pendingCredits == 0.0 && s.accounts[ref].monthlyStats == FreshStats(month)
    ensures CheckMonthlyCaps(s.edges, ref, CreditAmount(L1), month).Allowed?
    ensures var direct := RecordAward(BindReferrer(s, user, ref), ref, user, L1, month);
            && direct.edges == [NewEdge(ref, user, L1, 1.0, month)]
            && direct.accounts[ref] == s.accounts[ref].(credits := s.accounts[ref].credits + 1.0,
                                                        monthlyStats := MonthlyStats(0.0, 0.0, 1, month))
            && direct.accounts[user] == s.accounts[user].(referredBy := Some(ref), referralLevel := 1)
  {
    var bound := BindReferrer(s, user, ref);
    DirectAwardOnNothingPending(bound, ref, user, month);
    var e := NewEdge(ref, user, L1, 1.0, month);
    assert [] + [e] == [e];
  }

  /** With the direct award as the only edge, neither upper pass finds an ancestor. */
  lemma LoneEdgePasses(direct: Store, ref: Id, user: Id, month: Month)
    requires ref != user
    requires direct.edges == [NewEdge(ref, user, L1, 1.0, month)]
    ensures var second := AwardAll(direct, Find(direct.edges, Upline(ref, L1)), user, L2, month);
            second == direct && AwardAll(second, Find(second.edges, Upline(ref, L2)), user, L3, month) == direct
  {
    assert Find(direct.edges, Upline(ref, L1)) == [] by {
      FindSingle(NewEdge(ref, user, L1, 1.0, month), Upline(ref, L1));
    }
    assert Find(direct.edges, Upline(ref, L2)) == [] by {
      FindSingle(NewEdge(ref, user, L1, 1.0, month), Upline(ref, L2));
    }
    PassOverNothing(direct, user, L2, month);
    PassOverNothing(direct, user, L3, month);
  }

  /** A pass that finds no ancestor edge changes nothing. */
  lemma PassOverNothing(s: Store, userId: Id, level: Level, month: Month)
    ensures AwardAll(s, [], userId, level, month) == s
  {
  }

  /** A pass over a single ancestor edge that may be awarded is that ancestor's award. */
  lemma AwardAllSingle(s: Store, e: Edge, userId: Id, level: Level, month: Month)
    requires MayAward(s, e.referrer, level, month)
    ensures AwardAll(s, [e], userId, level, month) == RecordAward(s, e.referrer, userId, level, month)
  {
    assert [e][1..] == [];
    var s1 := AwardAncestor(s, e.referrer, userId, level, month);
    PassOverNothing(s1, userId, level, month);
  }

  /** Querying a log of two edges. */
  lemma FindTwo(a: Edge, b: Edge, q: Query)
    ensures Find([a] + [b], q) == (if Matches(q, a) then [a] else []) + (if Matches(q, b) then [b] else [])
  {
    FindAppend([a], [b], q);
    FindSingle(a, q);
    FindSingle(b, q);
  }

  /** Querying a log of three edges. */
  lemma FindThree(a: Edge, b: Edge, c: Edge, q: Query)
    ensures Find([a, b] + [c], q) ==
              (if Matches(q, a) then [a] else []) + (if Matches(q, b) then [b] else []) + (if Matches(q, c) then [c] else [])
  {
    assert [a, b] == [a] + [b];
    FindAppend([a, b], [c], q);
    FindTwo(a, b, q);
    FindSingle(c, q);
  }

  /**
   A chain l1 -> l2 -> l3 whose two level-1 edges are the whole log, and an unreferred
   account redeeming l3's code: l3 gets the direct award (converted at once), l2 is
   found through the level-1 edge into l3 and gets the L2 rate, and l1 gets nothing,
   because the L3 pass looks for level-2 edges into l3 and there are none.
   */
  lemma ChainRedemption(s: Store, l1: Id, l2: Id, l3: Id, newcomer: Id, code: string, month: Month)
    requires UniqueCodes(s.accounts)
    requires l1 != l2 && l1 != l3 && l1 != newcomer && l2 != l3 && l2 != newcomer && l3 != newcomer
    requires newcomer != "" && code != ""
    requires l1 in s.accounts && l2 in s.accounts && l3 in s.accounts && newcomer in s.accounts
    requires s.edges == [NewEdge(l1, l2, L1, 1.0, month), NewEdge(l2, l3, L1, 1.0, month)]
    requires s.accounts[l3].referralCode == ToUpper(code)
    requires s.accounts[newcomer].referredBy.None?
    requires s.accounts[l2].isActive && s.accounts[l2].pendingCredits == 0.0 && s.accounts[l2].monthlyStats == FreshStats(month)
    requires s.accounts[l3].pendingCredits == 0.0 && s.accounts[l3].monthlyStats == FreshStats(month)
    ensures var (res, after) := RedeemCode(s, code, newcomer, month);
            && res == Ok(Redeemed(1, 1.0))
            && after.accounts[l3] == s.accounts[l3].(credits := s.accounts[l3].credits + 1.0,
                                                     monthlyStats := MonthlyStats(0.0, 0.0, 1, month))
            && after.accounts[l2] == s.accounts[l2].(pendingCredits := 0.25, monthlyStats := MonthlyStats(0.25, 0.0, 1, month))
            && after.accounts[l1] == s.accounts[l1]
            && after.edges == s.edges + [NewEdge(l3, newcomer, L1, 1.0, month)] + [NewEdge(l2, newcomer, L2, 0.25, month)]
  {
    CodeOwnerIsHolder(s, code, l3);
    assert Admissible(s, code, newcomer);
    ChainDirectAward(s, l1, l2, l3, newcomer, month);
    RedeemCodeSteps(s, code, newcomer, month);
    var direct := RecordAward(BindReferrer(s, newcomer, l3), l3, newcomer, L1, month);
    ChainUpperPasses(direct, l1, l2, l3, newcomer, month);
    SecondLevelAwardOnNothingPending(direct, l2, newcomer, month);
  }

  /** The direct award of the chain redemption: l3 is within its caps and converts the award at once. */
  lemma ChainDirectAward(s: Store, l1: Id, l2: Id, l3: Id, newcomer: Id, month: Month)
    requires l1 != l3 && l2 != l3 && l1 != newcomer && l2 != newcomer && l3 != newcomer
    requires l3 in s.accounts && newcomer in s.accounts
    requires s.edges == [NewEdge(l1, l2, L1, 1.0, month), NewEdge(l2, l3, L1, 1.0, month)]
    requires s.accounts[l3].pendingCredits == 0.0 && s.accounts[l3].monthlyStats == FreshStats(month)
    ensures CheckMonthlyCaps(s.edges, l3, CreditAmount(L1), month).Allowed?
    ensures var direct := RecordAward(BindReferrer(s, newcomer, l3), l3, newcomer, L1, month);
            && direct.edges == s.edges + [NewEdge(l3, newcomer, L1, 1.0, month)]
            && direct.accounts[l3] == s.accounts[l3].(credits := s.accounts[l3].credits + 1.0,
                                                      monthlyStats := MonthlyStats(0.0, 0.0, 1, month))
            && (forall id :: id in s.accounts && id != l3 && id != newcomer ==> direct.accounts[id] == s.accounts[id])
  {
    FindNone(s.edges, InMonth(l3, month));
    DirectAwardOnNothingPending(BindReferrer(s, newcomer, l3), l3, newcomer, month);
  }

  /**
   The L2 and L3 passes of the chain redemption: the level-1 edge into l3 leads to l2,
   which is awarded the L2 rate; no level-2 edge leads into l3, so the L3 pass is empty.
   */
  lemma ChainUpperPasses(direct: Store, l1: Id, l2: Id, l3: Id, newcomer: Id, month: Month)
    requires l1 != l2 && l1 != l3 && l2 != l3 && l3 != newcomer
    requires direct.edges == [NewEdge(l1, l2, L1, 1.0, month), NewEdge(l2, l3, L1, 1.0, month)] + [NewEdge(l3, newcomer, L1, 1.0, month)]
    requires l2 in direct.accounts && direct.accounts[l2].isActive
    ensures var second := AwardAll(direct, Find(direct.edges, Upline(l3, L1)), newcomer, L2, month);
            AwardAll(second, Find(second.edges, Upline(l3, L2)), newcomer, L3, month) ==
              RecordAward(direct, l2, newcomer, L2, month)
  {
    ChainSecondPass(direct, l1, l2, l3, newcomer, month);
    ChainThirdPass(direct, RecordAward(direct, l2, newcomer, L2, month), l1, l2, l3, newcomer, month);
  }

  /** No level-2 edge leads into l3, so the L3 pass of the chain redemption changes nothing. */
  lemma ChainThirdPass(direct: Store, second: Store, l1: Id, l2: Id, l3: Id, newcomer: Id, month: Month)
    requires l3 != newcomer
    requires direct.edges == [NewEdge(l1, l2, L1, 1.0, month), NewEdge(l2, l3, L1, 1.0, month)] + [NewEdge(l3, newcomer, L1, 1.0, month)]
    requires second.edges == direct.edges + [NewEdge(l2, newcomer, L2, 0.25, month)]
    ensures AwardAll(second, Find(second.edges, Upline(l3, L2)), newcomer, L3, month) == second
  {
    assert Find(second.edges, Upline(l3, L2)) == [] by {
      FindSnoc(direct.edges, NewEdge(l2, newcomer, L2, 0.25, month), Upline(l3, L2));
      FindThree(NewEdge(l1, l2, L1, 1.0, month), NewEdge(l2, l3, L1, 1.0, month), NewEdge(l3, newcomer, L1, 1.0, month), Upline(l3, L2));
    }
    PassOverNothing(second, newcomer, L3, month);
  }

  lemma ChainSecondPass(direct: Store, l1: Id, l2: Id, l3: Id, newcomer: Id, month: Month)
    requires l1 != l2 && l1 != l3 && l2 != l3 && l3 != newcomer
    requires direct.edges == [NewEdge(l1, l2, L1, 1.0, month), NewEdge(l2, l3, L1, 1.0, month)] + [NewEdge(l3, newcomer, L1, 1.0, month)]
    requires l2 in direct.accounts && direct.accounts[l2].isActive
    ensures AwardAll(direct, Find(direct.edges, Upline(l3, L1)), newcomer, L2, month) ==
              RecordAward(direct, l2, newcomer, L2, month)
  {
    var e0 := NewEdge(l1, l2, L1, 1.0, month);
    var e1 := NewEdge(l2, l3, L1, 1.0, month);
    var e2 := NewEdge(l3, newcomer, L1, 1.0, month);
    assert Find(direct.edges, Upline(l3, L1)) == [e1] by {
      FindThree(e0, e1, e2, Upline(l3, L1));
    }
    assert MayAward(direct, l2, L2, month) by {
      FindThree(e0, e1, e2, InMonth(l2, month));
      assert UpperLevelSum([e1]) == 0.0;
    }
    AwardAllSingle(direct, e1, newcomer, L2, month);
  }

  /**
   A circular redemption: r was referred by u, and u, not yet referred itself, redeems
   r's code. Nothing refuses it (only redeeming one's own code is refused), r gets the
   direct award, and the L2 pass walks the level-1 edge into r back to u, so u is paid
   the L2 rate for its own redemption.
   */
  lemma CircularRedemptionPaysRedeemer(s: Store, u: Id, r: Id, code: string, month: Month)
    requires UniqueCodes(s.accounts)
    requires u != r && u != "" && code != ""
    requires u in s.accounts && r in s.accounts
    requires s.edges == [NewEdge(u, r, L1, 1.0, month)]
    requires s.accounts[r].referralCode == ToUpper(code)
    requires s.accounts[u].referredBy.None? && s.accounts[u].isActive
    requires s.accounts[u].pendingCredits == 0.0 && s.accounts[u].monthlyStats == FreshStats(month)
    ensures var (res, after) := RedeemCode(s, code, u, month);
            && res == Ok(Redeemed(1, 1.0))
            && after.accounts[u] == s.accounts[u].(referredBy := Some(r), referralLevel := 1, pendingCredits := 0.25,
                                                   monthlyStats := MonthlyStats(0.25, 0.0, 1, month))
            && after.edges == s.edges + [NewEdge(r, u, L1, 1.0, month)] + [NewEdge(u, u, L2, 0.25, month)]
  {
    CodeOwnerIsHolder(s, code, r);
    assert Admissible(s, code, u);
    CircularDirectAward(s, u, r, month);
    RedeemCodeSteps(s, code, u, month);
    var direct := RecordAward(BindReferrer(s, u, r), r, u, L1, month);
    CircularUpperPasses(direct, u, r, month);
    SecondLevelAwardOnNothingPending(direct, u, u, month);
  }

  /** The direct award of the circular redemption: r is within its caps and the redeemer is only bound. */
  lemma CircularDirectAward(s: Store, u: Id, r: Id, month: Month)
    requires u != r && u in s.accounts && r in s.accounts
    requires s.edges == [NewEdge(u, r, L1, 1.0, month)]
    ensures CheckMonthlyCaps(s.edges, r, CreditAmount(L1), month).Allowed?
    ensures var direct := RecordAward(BindReferrer(s, u, r), r, u, L1, month);
            && direct.edges == s.edges + [NewEdge(r, u, L1, 1.0, month)]
            && direct.accounts[u] == s.accounts[u].(referredBy := Some(r), referralLevel := 1)
  {
    FindNone(s.edges, InMonth(r, month));
  }

  /** The L2 and L3 passes of the circular redemption: the level-1 edge into r leads back to u. */
  lemma CircularUpperPasses(direct: Store, u: Id, r: Id, month: Month)
    requires u != r
    requires direct.edges == [NewEdge(u, r, L1, 1.0, month)] + [NewEdge(r, u, L1, 1.0, month)]
    requires u in direct.accounts && direct.accounts[u].isActive
    ensures var second := AwardAll(direct, Find(direct.edges, Upline(r, L1)), u, L2, month);
            AwardAll(second, Find(second.edges, Upline(r, L2)), u, L3, month) == RecordAward(direct, u, u, L2, month)
  {
    var e0 := NewEdge(u, r, L1, 1.0, month);
    var e1 := NewEdge(r, u, L1, 1.0, month);
    assert Find(direct.edges, Upline(r, L1)) == [e0] by {
      FindTwo(e0, e1, Upline(r, L1));
    }
    assert MayAward(direct, u, L2, month) by {
      FindTwo(e0, e1, InMonth(u, month));
      assert UpperLevelSum([e0]) == 0.0;
    }
    AwardAllSingle(direct, e0, u, L2, month);
    CircularThirdPass(direct, RecordAward(direct, u, u, L2, month), u, r, month);
  }

  /** No level-2 edge leads into r, so the L3 pass of the circular redemption changes nothing. */
  lemma CircularThirdPass(direct: Store, second: Store, u: Id, r: Id, month: Month)
    requires u != r
    requires direct.edges == [NewEdge(u, r, L1, 1.0, month)] + [NewEdge(r, u, L1, 1.0, month)]
    requires second.edges == direct.edges + [NewEdge(u, u, L2, 0.25, month)]
    ensures AwardAll(second, Find(second.edges, Upline(r, L2)), u, L3, month) == second
  {
    assert Find(second.edges, Upline(r, L2)) == [] by {
      FindSnoc(direct.edges, NewEdge(u, u, L2, 0.25, month), Upline(r, L2));
      FindTwo(NewEdge(u, r, L1, 1.0, month), NewEdge(r, u, L1, 1.0, month), Upline(r, L2));
    }
    PassOverNothing(second, u, L3, month);
  }

  /**
   A chain a -> b -> c built by redemptions: b redeemed a's code, then c redeemed b's
   code, which recorded the level-2 edge from a into c. When a newcomer redeems c's
   code, c gets the direct award, b is found through the level-1 edge into c and gets
   the L2 rate, and a is found through the level-2 edge into c and gets the L3 rate.
   */
  lemma BuiltChainPaysThirdLevel(s: Store, a: Id, b: Id, c: Id, n: Id, code: string, month: Month)
    requires UniqueCodes(s.accounts)
    requires a != b && a != c && a != n && b != c && b != n && c != n
    requires n != "" && code != ""
    requires a in s.accounts && b in s.accounts && c in s.accounts && n in s.accounts
    requires s.edges == [NewEdge(a, b, L1, 1.0, month), NewEdge(b, c, L1, 1.0, month)] + [NewEdge(a, c, L2, 0.25, month)]
    requires s.accounts[c].referralCode == ToUpper(code)
    requires s.accounts[n].referredBy.None?
    requires s.accounts[a].isActive && s.accounts[b].isActive
    ensures var (res, after) := RedeemCode(s, code, n, month);
            && res == Ok(Redeemed(1, 1.0))
            && after.edges == s.edges + [NewEdge(c, n, L1, 1.0, month), NewEdge(b, n, L2, 0.25, month), NewEdge(a, n, L3, 0.10, month)]
            && Balance(after.accounts[a]) == Balance(s.accounts[a]) + 0.10
            && Balance(after.accounts[b]) == Balance(s.accounts[b]) + 0.25
  {
    var e0 := NewEdge(a, b, L1, 1.0, month);
    var e1 := NewEdge(b, c, L1, 1.0, month);
    var e2 := NewEdge(a, c, L2, 0.25, month);
    var l1 := NewEdge(c, n, L1, CreditAmount(L1), month);
    var l2 := NewEdge(b, n, L2, CreditAmount(L2), month);
    var l3 := NewEdge(a, n, L3, CreditAmount(L3), month);
    CodeOwnerIsHolder(s, code, c);
    assert Admissible(s, code, n);
    BuiltChainUplines(s.edges, e0, e1, e2, a, b, c, month);
    BuiltChainMonths(s.edges, e0, e1, e2, a, b, c, month);
    L1IsExemptFromCombinedCap(s.edges, c, month);
    BuiltChainCaps(s, l1, l2, e1, e0, e2, a, b, month);
    RedeemWithSingleUplines(s, code, n, month, e1, e2);
    var after := RedeemCode(s, code, n, month).1;
    ThreeAppended(s.edges, after.edges, l1, l2, l3);
    StraightAwardsBalances(s, after, l1, l2, l3, a, b);
  }

  lemma ThreeAppended(edges: seq<Edge>, after: seq<Edge>, l1: Edge, l2: Edge, l3: Edge)
    requires after == edges + [l1] + [l2] + [l3]
    ensures after == edges + [l1, l2, l3] && after[|edges|..] == [l1, l2, l3]
  {
  }

  /**
   A redemption whose owner has one level-1 and one level-2 ancestor edge, both of
   whose referrers may be awarded when their turn comes, appends exactly three edges.
   */
  lemma RedeemWithSingleUplines(s: Store, code: string, userId: Id, month: Month, up2: Edge, up3: Edge)
    requires UniqueCodes(s.accounts) && Admissible(s, code, userId)
    requires CheckMonthlyCaps(s.edges, CodeOwner(s, code).value, CreditAmount(L1), month).Allowed?
    requires Find(s.edges, Upline(CodeOwner(s, code).value, L1)) == [up2]
    requires Find(s.edges, Upline(CodeOwner(s, code).value, L2)) == [up3]
    requires var l1 := NewEdge(CodeOwner(s, code).value, userId, L1, CreditAmount(L1), month);
             && MayAward(Store(s.accounts, s.edges + [l1]), up2.referrer, L2, month)
             && MayAward(Store(s.accounts, s.edges + [l1] + [NewEdge(up2.referrer, userId, L2, CreditAmount(L2), month)]),
                         up3.referrer, L3, month)
    ensures RedeemCode(s, code, userId, month).0 == Ok(Redeemed(1, CreditAmount(L1)))
    ensures RedeemCode(s, code, userId, month).1.edges ==
              s.edges + [NewEdge(CodeOwner(s, code).value, userId, L1, CreditAmount(L1), month)]
              + [NewEdge(up2.referrer, userId, L2, CreditAmount(L2), month)]
              + [NewEdge(up3.referrer, userId, L3, CreditAmount(L3), month)]
  {
    var owner := CodeOwner(s, code).value;
    var l1 := NewEdge(owner, userId, L1, CreditAmount(L1), month);
    var l2 := NewEdge(up2.referrer, userId, L2, CreditAmount(L2), month);
    var l3 := NewEdge(up3.referrer, userId, L3, CreditAmount(L3), month);
    RedeemCodePaysUpline(s, code, userId, month);
    var l2s := AwardEdges(PaidAncestors(Store(s.accounts, s.edges + [l1]), Find(s.edges, Upline(owner, L1)), L2, month), userId, L2, month);
    SingleUplinePaid(Store(s.accounts, s.edges + [l1]), up2, userId, L2, month);
    assert l2s == [l2];
    var l3s := AwardEdges(PaidAncestors(Store(s.accounts, s.edges + [l1] + l2s), Find(s.edges, Upline(owner, L2)), L3, month), userId, L3, month);
    SingleUplinePaid(Store(s.accounts, s.edges + [l1] + [l2]), up3, userId, L3, month);
    assert l3s == [l3];
    var after := RedeemCode(s, code, userId, month).1;
    assert after.edges == s.edges + [l1] + l2s + l3s;
  }

  /** Three appended awards credit each account with the rates of the awards in its name. */
  lemma StraightAwardsBalances(s: Store, after: Store, l1: Edge, l2: Edge, l3: Edge, a: Id, b: Id)
    requires a in s.accounts && b in s.accounts
    requires after.accounts.Keys == s.accounts.Keys
    requires |s.edges| <= |after.edges| && Added(s, after) == [l1, l2, l3]
    requires forall id :: id in s.accounts ==>
               Balance(after.accounts[id]) == Balance(s.accounts[id]) + CreditedIn(Added(s, after), id)
    requires l1.referrer != a && l1.referrer != b && l2.referrer == b && l3.referrer == a && a != b
    ensures Balance(after.accounts[a]) == Balance(s.accounts[a]) + l3.creditAmount
    ensures Balance(after.accounts[b]) == Balance(s.accounts[b]) + l2.creditAmount
  {
    CreditedInThree(l1, l2, l3, a);
    CreditedInThree(l1, l2, l3, b);
  }

  /** The credit three edges give an account: the rates of those in its name. */
  lemma CreditedInThree(l1: Edge, l2: Edge, l3: Edge, id: Id)
    ensures CreditedIn([l1, l2, l3], id) ==
              (if l1.referrer == id then l1.creditAmount else 0.0)
              + (if l2.referrer == id then l2.creditAmount else 0.0)
              + (if l3.referrer == id then l3.creditAmount else 0.0)
  {
    var p := [l1, l2];
    assert [l1, l2, l3] == p + [l3];
    assert p == [l1] + [l2];
    CreditedInAppend(p, [l3], id);
    CreditedInAppend([l1], [l2], id);
    CreditedInSingle(l1, id);
    CreditedInSingle(l2, id);
    CreditedInSingle(l3, id);
  }

  /** What the built chain's log answers to the ancestor queries of c's redemption. */
  lemma BuiltChainUplines(log: seq<Edge>, e0: Edge, e1: Edge, e2: Edge, a: Id, b: Id, c: Id, month: Month)
    requires a != b && a != c && b != c
    requires e0 == NewEdge(a, b, L1, 1.0, month) && e1 == NewEdge(b, c, L1, 1.0, month) && e2 == NewEdge(a, c, L2, 0.25, month)
    requires log == [e0, e1] + [e2]
    ensures Find(log, Upline(c, L1)) == [e1]
    ensures Find(log, Upline(c, L2)) == [e2]
  {
    assert Find(log, Upline(c, L1)) == [e1] by {
      assert !Matches(Upline(c, L1), e0) && Matches(Upline(c, L1), e1) && !Matches(Upline(c, L1), e2);
      FindThree(e0, e1, e2, Upline(c, L1));
    }
    assert Find(log, Upline(c, L2)) == [e2] by {
      assert !Matches(Upline(c, L2), e0) && !Matches(Upline(c, L2), e1) && Matches(Upline(c, L2), e2);
      FindThree(e0, e1, e2, Upline(c, L2));
    }
  }

  /** What the built chain's log answers to the cap checks of c's redemption. */
  lemma BuiltChainMonths(log: seq<Edge>, e0: Edge, e1: Edge, e2: Edge, a: Id, b: Id, c: Id, month: Month)
    requires a != b && a != c && b != c
    requires e0.referrer == a && e1.referrer == b && e2.referrer == a
    requires e0.month == month && e1.month == month && e2.month == month
    requires log == [e0, e1] + [e2]
    ensures Find(log, InMonth(c, month)) == []
    ensures Find(log, InMonth(b, month)) == [e1]
    ensures Find(log, InMonth(a, month)) == [e0, e2]
  {
    assert Find(log, InMonth(c, month)) == [] by {
      assert !Matches(InMonth(c, month), e0) && !Matches(InMonth(c, month), e1) && !Matches(InMonth(c, month), e2);
      FindThree(e0, e1, e2, InMonth(c, month));
    }
    assert Find(log, InMonth(b, month)) == [e1] by {
      assert !Matches(InMonth(b, month), e0) && Matches(InMonth(b, month), e1) && !Matches(InMonth(b, month), e2);
      FindThree(e0, e1, e2, InMonth(b, month));
    }
    assert Find(log, InMonth(a, month)) == [e0, e2] by {
      assert Matches(InMonth(a, month), e0) && !Matches(InMonth(a, month), e1) && Matches(InMonth(a, month), e2);
      FindThree(e0, e1, e2, InMonth(a, month));
      assert [e0] + [e2] == [e0, e2];
    }
  }

  /**
   The caps in the built chain: b has one level-1 edge when its L2 award is checked,
   and a has a level-1 and a level-2 edge when its L3 award is.
   */
  lemma BuiltChainCaps(s: Store, l1: Edge, l2: Edge, e1: Edge, e0: Edge, e2: Edge, a: Id, b: Id, month: Month)
    requires a in s.accounts && b in s.accounts && s.accounts[a].isActive && s.accounts[b].isActive
    requires Find(s.edges, InMonth(b, month)) == [e1] && Find(s.edges, InMonth(a, month)) == [e0, e2]
    requires e0.level == L1 && e1.level == L1 && e2.level == L2 && e2.creditAmount == 0.25
    requires l1.referrer != a && l1.referrer != b && l2.referrer == b && a != b
    ensures MayAward(Store(s.accounts, s.edges + [l1]), b, L2, month)
    ensures MayAward(Store(s.accounts, s.edges + [l1] + [l2]), a, L3, month)
  {
    SecondAncestorMayAward(s, l1, e1, b, month);
    ThirdAncestorMayAward(s, l1, l2, e0, e2, a, month);
  }

  lemma SecondAncestorMayAward(s: Store, l1: Edge, e1: Edge, b: Id, month: Month)
    requires b in s.accounts && s.accounts[b].isActive
    requires Find(s.edges, InMonth(b, month)) == [e1] && e1.level == L1
    requires l1.referrer != b
    ensures MayAward(Store(s.accounts, s.edges + [l1]), b, L2, month)
  {
    FindSnoc(s.edges, l1, InMonth(b, month));
    assert UpperLevelSum([e1]) == 0.0;
    FewEdgesMayAward(Store(s.accounts, s.edges + [l1]), b, L2, month, [e1]);
  }

  lemma ThirdAncestorMayAward(s: Store, l1: Edge, l2: Edge, e0: Edge, e2: Edge, a: Id, month: Month)
    requires a in s.accounts && s.accounts[a].isActive
    requires Find(s.edges, InMonth(a, month)) == [e0, e2]
    requires e0.level == L1 && e2.level == L2 && e2.creditAmount == 0.25
    requires l1.referrer != a && l2.referrer != a
    ensures MayAward(Store(s.accounts, s.edges + [l1] + [l2]), a, L3, month)
  {
    FindSnoc(s.edges, l1, InMonth(a, month));
    FindSnoc(s.edges + [l1], l2, InMonth(a, month));
    assert UpperLevelSum([e0, e2]) == 0.25 by {
      assert [e0, e2][1..] == [e2];
      assert UpperLevelSum([e2]) == 0.25 + UpperLevelSum([]);
    }
    FewEdgesMayAward(Store(s.accounts, s.edges + [l1] + [l2]), a, L3, month, [e0, e2]);
  }

  /** An active account whose month holds few edges and little upper-level credit may be awarded. */
  lemma FewEdgesMayAward(x: Store, id: Id, level: Level, month: Month, found: seq<Edge>)
    requires id in x.accounts && x.accounts[id].isActive
    requires Find(x.edges, InMonth(id, month)) == found
    requires |found| < TotalReferralsCap && UpperLevelSum(found) + CreditAmount(level) <= L2L3CombinedCap
    ensures MayAward(x, id, level, month)
  {
  }

  /** The reference awards for a single ancestor edge whose referrer may be awarded. */
  lemma SingleUplinePaid(x: Store, e: Edge, userId: Id, level: Level, month: Month)
    requires MayAward(x, e.referrer, level, month)
    ensures AwardEdges(PaidAncestors(x, [e], level, month), userId, level, month) ==
              [NewEdge(e.referrer, userId, level, CreditAmount(level), month)]
  {
    assert [e][1..] == [];
    assert PaidAncestors(x, [e], level, month) == [e.referrer];
    assert [e.referrer][1..] == [];
  }

  /**
   Conversion of an eligible account holding 5 credits and 2.5 pending: 2.5 moves,
   leaving 7.5 confirmed and nothing pending.
   */
  lemma EligibleConversion(id: Id, a: Account, others: map<Id, Account>, edges: seq<Edge>)
    requires id != "" && IsEligibleForCredit(a)
    requires a.credits == 5.0 && a.pendingCredits == 2.5
    ensures var (res, after) := ConvertCredits(Store(others[id := a], edges), id);
            && res == Ok(Converted(2.5, 7.5, 0.0))
            && res.value.Message() == "Credits converted successfully"
            && after.accounts[id] == a.(credits := 7.5, pendingCredits := 0.0)
  {
  }

  /**
   A first award of 1.0 to an account with nothing pending is converted immediately:
   one whole credit is confirmed and nothing remains pending.
   */
  lemma FirstDirectAwardLeavesNothingPending(a: Account)
    requires a.pendingCredits == 0.0
    ensures AddFractionalCredits(a, 1.0) == (a.(credits := a.credits + 1.0), 1)
  {
    assert (0.0 + 1.0).Floor == 1;
  }
}
