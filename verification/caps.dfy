/**
 The fixed credit rates and the two monthly caps. A cap decision is computed from
 the edges recorded for the account in the given month, never from the account's
 cached monthly statistics.
 */
module Caps {
  import opened User
  import opened Referral
  import opened Store

  /** The credit awarded at each level. */
  function CreditAmount(level: Level): (r: real)
    ensures 0.0 < r <= 1.0
    ensures level == L1 <==> r == 1.0
  {
    match level
    case L1 => 1.0
    case L2 => 0.25
    case L3 => 0.10
  }

  /** Combined ceiling on L2 and L3 credit per account per month. */
  const L2L3CombinedCap: real := 50.0

  /** Ceiling on the number of edges recorded per account per month. */
  const TotalReferralsCap: int := 100

  /** The edges credited to `id` in `month`. */
  function MonthReferrals(edges: seq<Edge>, id: Id, month: Month): seq<Edge>
  {
    Find(edges, InMonth(id, month))
  }

  /** The credit of the edges credited to `id` at `level` in `month`. */
  function LevelCredits(edges: seq<Edge>, id: Id, level: Level, month: Month): real
  {
    Sum(Find(edges, AtLevelInMonth(id, level, month)))
  }

  /** One more edge adds its credit to the level sum it matches and leaves the others alone. */
  lemma LevelCreditsSnoc(edges: seq<Edge>, e: Edge, id: Id, level: Level, month: Month)
    ensures LevelCredits(edges + [e], id, level, month) ==
              LevelCredits(edges, id, level, month)
              + (if e.referrer == id && e.level == level && e.month == month then e.creditAmount else 0.0)
  {
    var q := AtLevelInMonth(id, level, month);
    FindSnoc(edges, e, q);
    SumAppend(Find(edges, q), if Matches(q, e) then [e] else []);
    assert Sum([e]) == e.creditAmount + Sum([]);
  }

  /** An account with no edges in a month has no credit at any level in that month. */
  lemma NoMonthReferralsNoLevelCredits(edges: seq<Edge>, id: Id, level: Level, month: Month)
    requires MonthReferrals(edges, id, month) == []
    ensures LevelCredits(edges, id, level, month) == 0.0
  {
    var narrow := Find(edges, AtLevelInMonth(id, level, month));
    if narrow != [] {
      assert narrow[0] in edges && Matches(InMonth(id, month), narrow[0]);
    }
  }

  /** The summed credit of the level-2 and level-3 edges among `es`. */
  function UpperLevelSum(es: seq<Edge>): real
  {
    if es == [] then 0.0
    else (if es[0].level == L2 || es[0].level == L3 then es[0].creditAmount else 0.0) + UpperLevelSum(es[1..])
  }

  lemma {:induction false} UpperLevelSumAppend(a: seq<Edge>, b: seq<Edge>)
    ensures UpperLevelSum(a + b) == UpperLevelSum(a) + UpperLevelSum(b)
  {
    if a == [] {
      assert a + b == b;
    } else {
      assert (a + b)[1..] == a[1..] + b;
      UpperLevelSumAppend(a[1..], b);
    }
  }

  lemma {:induction false} UpperLevelSumNonNegative(es: seq<Edge>)
    requires forall i :: 0 <= i < |es| ==> es[i].creditAmount >= 0.0
    ensures UpperLevelSum(es) >= 0.0
  {
    if es != [] {
      UpperLevelSumNonNegative(es[1..]);
    }
  }

  /** L2+L3 credit recorded for `id` in `month`. */
  function L2L3Credits(edges: seq<Edge>, id: Id, month: Month): real
  {
    UpperLevelSum(MonthReferrals(edges, id, month))
  }

  /** The combined cap only looks at awards of the L2 or L3 rate. */
  predicate IsL2OrL3Amount(amount: real)
  {
    amount == CreditAmount(L2) || amount == CreditAmount(L3)
  }

  datatype DenialReason = CombinedCapExceeded | TotalCapExceeded {
    function Message(): string
    {
      match this
      case CombinedCapExceeded => "Monthly L2+L3 credit cap exceeded"
      case TotalCapExceeded => "Monthly total referral cap exceeded"
    }
  }

  datatype CapCheck = Allowed | Denied(reason: DenialReason)

  /**
   Decides whether `referrer` may receive an award of `amount` in `month`: allowed
   exactly when, counting this award, the month holds at most 100 edges for it and,
   for an L2/L3-rate award, at most 50 of combined L2+L3 credit. When both caps
   trip, the combined-cap reason is the one reported.
   */
  function CheckMonthlyCaps(edges: seq<Edge>, referrer: Id, amount: real, month: Month): (r: CapCheck)
    ensures r.Allowed? <==>
              && |MonthReferrals(edges, referrer, month)| + 1 <= TotalReferralsCap
              && (IsL2OrL3Amount(amount) ==> L2L3Credits(edges, referrer, month) + amount <= L2L3CombinedCap)
    ensures r == Denied(CombinedCapExceeded) <==>
              IsL2OrL3Amount(amount) && L2L3Credits(edges, referrer, month) + amount > L2L3CombinedCap
  {
    var monthly := MonthReferrals(edges, referrer, month);
    if IsL2OrL3Amount(amount) && UpperLevelSum(monthly) + amount > L2L3CombinedCap then
      Denied(CombinedCapExceeded)
    else if |monthly| >= TotalReferralsCap then
      Denied(TotalCapExceeded)
    else
      Allowed
  }

  /** The L1 rate is never refused by the combined cap: only the edge count can refuse it. */
  lemma L1IsExemptFromCombinedCap(edges: seq<Edge>, referrer: Id, month: Month)
    ensures CheckMonthlyCaps(edges, referrer, CreditAmount(L1), month) != Denied(CombinedCapExceeded)
    ensures CheckMonthlyCaps(edges, referrer, CreditAmount(L1), month).Allowed? <==>
              |MonthReferrals(edges, referrer, month)| < TotalReferralsCap
  {
  }

  /** An edge recorded for another account, or in another month, does not move a cap decision. */
  lemma CapIgnoresOtherAccountsAndMonths(edges: seq<Edge>, e: Edge, referrer: Id, amount: real, month: Month)
    requires e.referrer != referrer || e.month != month
    ensures CheckMonthlyCaps(edges + [e], referrer, amount, month) == CheckMonthlyCaps(edges, referrer, amount, month)
  {
    var q := InMonth(referrer, month);
    FindSnoc(edges, e, q);
    assert !Matches(q, e);
    assert MonthReferrals(edges + [e], referrer, month) == MonthReferrals(edges, referrer, month);
  }

  /**
   Recording more edges of non-negative credit can only turn an allowed award into a
   denied one, never the reverse.
   */
  lemma CapIsMonotone(edges: seq<Edge>, more: seq<Edge>, referrer: Id, amount: real, month: Month)
    requires forall i :: 0 <= i < |more| ==> more[i].creditAmount >= 0.0
    ensures CheckMonthlyCaps(edges + more, referrer, amount, month).Allowed? ==>
              CheckMonthlyCaps(edges, referrer, amount, month).Allowed?
  {
    var q := InMonth(referrer, month);
    FindAppend(edges, more, q);
    UpperLevelSumAppend(Find(edges, q), Find(more, q));
    var extra := Find(more, q);
    forall i | 0 <= i < |extra|
      ensures extra[i].creditAmount >= 0.0
    {
      assert extra[i] in more;
    }
    UpperLevelSumNonNegative(extra);
  }

  /** Every account's month stays within both caps. */
  ghost predicate WithinCaps(edges: seq<Edge>, month: Month)
  {
    forall id ::
      && |MonthReferrals(edges, id, month)| <= TotalReferralsCap
      && L2L3Credits(edges, id, month) <= L2L3CombinedCap
  }

  /**
   An award the cap check allowed, recorded at its level's rate in the checked month,
   keeps every account within both caps.
   */
  lemma AllowedAwardStaysWithinCaps(edges: seq<Edge>, e: Edge, month: Month)
    requires WithinCaps(edges, month)
    requires e.month == month && e.creditAmount == CreditAmount(e.level)
    requires CheckMonthlyCaps(edges, e.referrer, e.creditAmount, month).Allowed?
    ensures WithinCaps(edges + [e], month)
  {
    forall id
      ensures |MonthReferrals(edges + [e], id, month)| <= TotalReferralsCap
      ensures L2L3Credits(edges + [e], id, month) <= L2L3CombinedCap
    {
      var q := InMonth(id, month);
      FindSnoc(edges, e, q);
      if Matches(q, e) {
        assert id == e.referrer;
        assert MonthReferrals(edges + [e], id, month) == MonthReferrals(edges, id, month) + [e];
        UpperLevelSumAppend(Find(edges, q), [e]);
        assert UpperLevelSum([e]) == if e.level == L1 then 0.0 else e.creditAmount;
      } else {
        assert MonthReferrals(edges + [e], id, month) == MonthReferrals(edges, id, month);
      }
    }
  }
}
