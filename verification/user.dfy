/**
 The account record of the referral program and the ledger methods defined on it:
 the eligibility gate, the manual full sweep of pending credit, threshold
 auto-conversion of fractional credit, and the calendar-month reset of the
 per-month statistics.
 */
module User {
  import opened Outcomes

  /** Account identifiers (the store's document ids). */
  type Id = string

  /** A calendar month in `YYYY-MM` form; months are only ever compared for equality. */
  type Month = string

  /** Progress needed before pending credit may be converted by hand. */
  const RequiredRounds: int := 6
  const RequiredReflections: int := 2

  /** Pending credit at or above this value is turned into whole credits. */
  const AutoConversionThreshold: real := 1.0

  /** Per-account aggregates for one calendar month. */
  datatype MonthlyStats = MonthlyStats(l2Credits: real, l3Credits: real, totalReferrals: int, month: Month)

  /** The statistics of a month in which nothing has been recorded yet. */
  function FreshStats(month: Month): MonthlyStats
  {
    MonthlyStats(0.0, 0.0, 0, month)
  }

  datatype Account = Account(
    email: string,
    username: string,
    referralCode: string,
    referredBy: Option<Id>,
    referralLevel: int,
    credits: real,
    pendingCredits: real,
    completedRounds: int,
    acceptedReflections: int,
    isActive: bool,
    monthlyStats: MonthlyStats)

  /** An account as the schema's defaults create it in month `month`. */
  function NewAccount(email: string, username: string, referralCode: string, month: Month): Account
  {
    Account(email, username, referralCode, None, 0, 0.0, 0.0, 0, 0, true, FreshStats(month))
  }

  /** Confirmed plus pending credit: the quantity every ledger step conserves or raises. */
  function Balance(a: Account): real
  {
    a.credits + a.pendingCredits
  }

  /** True when `b` differs from `a` at most in its two balance fields. */
  predicate OnlyBalanceChanged(a: Account, b: Account)
  {
    b == a.(credits := b.credits, pendingCredits := b.pendingCredits)
  }

  /** The eligibility gate for manual conversion. */
  predicate IsEligibleForCredit(a: Account)
  {
    a.completedRounds >= RequiredRounds && a.acceptedReflections >= RequiredReflections
  }

  /** Eligibility is decided by the two progress counters and by nothing else. */
  lemma EligibilityDependsOnlyOnProgress(a: Account, b: Account)
    requires a.completedRounds == b.completedRounds
    requires a.acceptedReflections == b.acceptedReflections
    ensures IsEligibleForCredit(a) <==> IsEligibleForCredit(b)
    ensures IsEligibleForCredit(a) <==> a.completedRounds >= 6 && a.acceptedReflections >= 2
  {
  }

  /**
   Manual conversion: an eligible account with positive pending credit moves all of
   it into confirmed credit and reports the amount moved; otherwise nothing happens
   and 0 is reported.
   */
  function ConvertPendingCredits(a: Account): (r: (Account, real))
    ensures OnlyBalanceChanged(a, r.0)
    ensures Balance(r.0) == Balance(a)
    ensures IsEligibleForCredit(a) && a.pendingCredits > 0.0 ==>
              r.1 == a.pendingCredits && r.0.pendingCredits == 0.0
    ensures !(IsEligibleForCredit(a) && a.pendingCredits > 0.0) ==> r.0 == a && r.1 == 0.0
    ensures r.1 > 0.0 <==> r.0 != a
  {
    if IsEligibleForCredit(a) && a.pendingCredits > 0.0 then
      (a.(credits := a.credits + a.pendingCredits, pendingCredits := 0.0), a.pendingCredits)
    else
      (a, 0.0)
  }

  /** A second manual conversion right after the first converts nothing and changes nothing. */
  lemma ConvertPendingCreditsIsIdempotent(a: Account)
    ensures var (b, _) := ConvertPendingCredits(a); ConvertPendingCredits(b) == (b, 0.0)
  {
  }

  /**
   Fractional accrual with auto-conversion: `amount` is added to pending credit and,
   once pending reaches the threshold, its whole part is moved into confirmed credit.
   The number of whole credits moved is returned.
   */
  function AddFractionalCredits(a: Account, amount: real): (r: (Account, int))
    ensures OnlyBalanceChanged(a, r.0)
    ensures Balance(r.0) == Balance(a) + amount
    ensures r.0.credits >= a.credits
    ensures a.pendingCredits + amount < AutoConversionThreshold ==>
              r.1 == 0 && r.0.pendingCredits == a.pendingCredits + amount
    ensures a.pendingCredits + amount >= AutoConversionThreshold ==>
              && 1 <= r.1
              && r.1 as real <= a.pendingCredits + amount < r.1 as real + 1.0
              && r.0.credits == a.credits + r.1 as real
              && 0.0 <= r.0.pendingCredits < 1.0
    ensures a.pendingCredits >= 0.0 && amount >= 0.0 ==> 0.0 <= r.0.pendingCredits < 1.0
  {
    var total := a.pendingCredits + amount;
    if total >= AutoConversionThreshold then
      var whole := total.Floor;
      (a.(credits := a.credits + whole as real, pendingCredits := total - whole as real), whole)
    else
      (a.(pendingCredits := total), 0)
  }

  /**
   Accruing `x` and then a non-negative `y` ends in the same account as accruing
   `x + y` at once, and converts the same number of whole credits in total.
   */
  lemma {:induction false} AccrualIsAdditive(a: Account, x: real, y: real)
    requires y >= 0.0
    ensures var (b, k1) := AddFractionalCredits(a, x);
            var (c, k2) := AddFractionalCredits(b, y);
            var (d, k) := AddFractionalCredits(a, x + y);
            c == d && k1 + k2 == k
  {
    var (b, k1) := AddFractionalCredits(a, x);
    var (c, k2) := AddFractionalCredits(b, y);
    var (d, k) := AddFractionalCredits(a, x + y);
    var p := a.pendingCredits;
    if p + x >= 1.0 {
      // the first step leaves a fraction f in [0, 1); the remaining whole part of f + y is k2
      var f := b.pendingCredits;
      assert p + x == k1 as real + f;
      assert p + x + y >= 1.0;
      if f + y >= 1.0 {
        assert (k1 as real + (f + y)).Floor == k1 + (f + y).Floor;
      } else {
        assert k2 == 0;
        assert (k1 as real + (f + y)).Floor == k1;
      }
      assert k == k1 + k2;
    }
  }

  /** Resets the monthly statistics when they belong to a month other than `current`. */
  function ResetMonthlyStats(a: Account, current: Month): (r: Account)
    ensures r == a.(monthlyStats := r.monthlyStats)
    ensures r.monthlyStats.month == current
    ensures a.monthlyStats.month == current ==> r == a
    ensures a.monthlyStats.month != current ==> r.monthlyStats == FreshStats(current)
  {
    if a.monthlyStats.month != current then a.(monthlyStats := FreshStats(current)) else a
  }

  /** Resetting twice in the same month is the same as resetting once. */
  lemma ResetMonthlyStatsIsIdempotent(a: Account, current: Month)
    ensures ResetMonthlyStats(ResetMonthlyStats(a, current), current) == ResetMonthlyStats(a, current)
  {
  }
}
