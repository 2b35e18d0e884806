/** The manual conversion endpoint: the eligibility gate in front of the full sweep of pending credit. */
module Conversion {
  import opened Outcomes
  import opened User
  import opened Store

  datatype ConvertError =
    | MissingUserId
    | UserNotFound
    | NotEligible(completedRounds: int, requiredRounds: int, acceptedReflections: int, requiredReflections: int)
  {
    function StatusCode(): int
    {
      if UserNotFound? then 404 else 400
    }

    function Message(): string
    {
      match this
      case MissingUserId => "User ID is required"
      case UserNotFound => "User not found"
      case NotEligible(_, _, _, _) => "User not eligible for credit conversion"
    }
  }

  datatype Converted = Converted(convertedAmount: real, totalCredits: real, remainingPending: real) {
    function Message(): string
    {
      if convertedAmount > 0.0 then "Credits converted successfully" else "No pending credits to convert"
    }
  }

  /**
   `convertCredits`: an eligible account sweeps all of its positive pending credit into
   confirmed credit; the answer reports the amount moved and the resulting balances.
   Nothing is stored unless something was moved.
   */
  function ConvertCredits(s: Store, userId: Id): (r: (Result<Converted, ConvertError>, Store))
    ensures userId == "" ==> r == (Err(MissingUserId), s)
    ensures r.0 == Err(UserNotFound) <==> userId != "" && userId !in s.accounts
    ensures userId != "" && userId in s.accounts && !IsEligibleForCredit(s.accounts[userId]) ==>
              var a := s.accounts[userId];
              r == (Err(NotEligible(a.completedRounds, RequiredRounds, a.acceptedReflections, RequiredReflections)), s)
    ensures r.0.Err? ==> r.1 == s
    ensures r.0.Ok? <==> userId != "" && userId in s.accounts && IsEligibleForCredit(s.accounts[userId])
    ensures r.0.Ok? ==>
              var a := s.accounts[userId];
              var c := r.0.value;
              && c.convertedAmount == (if a.pendingCredits > 0.0 then a.pendingCredits else 0.0)
              && c.remainingPending == (if a.pendingCredits > 0.0 then 0.0 else a.pendingCredits)
              && c.totalCredits + c.remainingPending == Balance(a)
              && r.1.edges == s.edges
              && r.1.accounts == s.accounts[userId := a.(credits := c.totalCredits, pendingCredits := c.remainingPending)]
    ensures r.0.Ok? && r.0.value.convertedAmount == 0.0 ==> r.1 == s
  {
    if userId == "" then
      (Err(MissingUserId), s)
    else if userId !in s.accounts then
      (Err(UserNotFound), s)
    else
      var user := s.accounts[userId];
      if !IsEligibleForCredit(user) then
        (Err(NotEligible(user.completedRounds, RequiredRounds, user.acceptedReflections, RequiredReflections)), s)
      else
        var (converted, amount) := ConvertPendingCredits(user);
        var answer := Converted(amount, converted.credits, converted.pendingCredits);
        if amount > 0.0 then
          (Ok(answer), s.(accounts := s.accounts[userId := converted]))
        else
          (Ok(answer), s)
  }

  /** Converting again right after a conversion moves nothing and stores nothing. */
  lemma {:induction false} ConvertCreditsTwice(s: Store, userId: Id)
    requires ConvertCredits(s, userId).0.Ok?
    ensures var s1 := ConvertCredits(s, userId).1;
            var r2 := ConvertCredits(s1, userId);
            && r2.0.Ok? && r2.0.value.convertedAmount == 0.0 && r2.1 == s1
            && r2.0.value.totalCredits == ConvertCredits(s, userId).0.value.totalCredits
  {
    var s1 := ConvertCredits(s, userId).1;
    var a := s.accounts[userId];
    assert IsEligibleForCredit(s1.accounts[userId]) by {
      EligibilityDependsOnlyOnProgress(a, s1.accounts[userId]);
    }
  }
}
