# Referral credit engine — a Dafny model

This project models the credit engine of a three-level referral program. Accounts
invite each other and redeem each other's referral codes. A redemption credits the
code's owner (level 1, 1.0 credit). It also tries to credit the owner's ancestors,
found through the stored referral edges: level 2 earns 0.25 and level 3 earns 0.10.
Credit first accrues as fractional *pending* credit. Once pending credit reaches
1.0, its whole part is moved into confirmed credit.

Two monthly caps apply to each account:
- at most 100 recorded edges;
- at most 50 of combined level-2 and level-3 credit.

The caps are checked against the edges stored for the month. Manual conversion
moves all pending credit into confirmed credit, but only for accounts that have
completed 6 rounds and have 2 accepted reflections. A status query reports an
account's month.

The state is the immutable value `Store.Store`: accounts by id, plus the edge
collection in insertion order. Every endpoint is a pure function from a store to a
pair of answer and new store:
- `Invitation.InviteUser`
- `Redemption.RedeemCode`
- `Conversion.ConvertCredits`
- `Status.GetReferralStatus`, which returns only an answer.

The current month (`YYYY-MM`) is a parameter, and so is the base URL of the invite
link. When inviting, the new account's id and its freshly generated code are
parameters too.

Modules:
- `User`: the account record and its ledger methods.
- `Referral`: the edge schema and its validation.
- `Store`: the state, code lookup and edge queries.
- `Caps`: the rates and the monthly cap check.
- `Redemption`, `Conversion`, `Invitation` and `Status`: the four endpoints.
- `Passes`: which ancestors the level-2 and level-3 passes pay, stated against a reference list of eligible referrers.
- `Invariants`: a store invariant that every endpoint preserves, and the link between the status answer and the edge log.
- `Scenarios`: concrete runs of the engine.

The model follows what the controller does, including these behaviours:
- **The direct referrer is credited even when inactive.** The code checks `isActive` only for level-2 and level-3 ancestors.
- **A refused direct award leaves the redeemer bound.** When the caps refuse the level-1 award, the account has already been bound to the referrer (`referredBy` is saved before the cap check). The redemption answers with the cap's reason, and the account cannot redeem again (`Redemption.RedeemCodeAtMostOnce`).
- **The level-3 pass does not walk up from the level-2 ancestors.** It looks up the pending level-2 edges whose `referred` is the direct referrer, in the store as it stands after the level-2 pass. Consider a chain A → B → C → newcomer. When the log holds only the two level-1 edges, as the repository's test seeds it, that pass finds nothing, so A receives nothing (`Scenarios.ChainRedemption`). When the chain was built by redemptions, C's own redemption recorded the level-2 edge A → C. The level-3 pass finds that edge and pays A 0.10 (`Scenarios.BuiltChainPaysThirdLevel`).
- **A circular redemption pays the redeemer.** Suppose U referred R and U then redeems R's code. The level-2 pass finds the edge U → R and awards U 0.25 for U's own redemption (`Scenarios.CircularRedemptionPaysRedeemer`).
- **A direct award of 1.0 on nothing pending is converted at once.** This leaves 0 pending credit and one more confirmed credit.

The repository's tests expect other values in three places. The model follows the code:
- `tests/referral.test.js:69` expects pending credit 1.0 after the first direct award.
- `tests/api.test.js:116` expects the same after the first direct award.
- `tests/api.test.js:363-365` expects three levels of credit in the chain above.

## Model

| member | source | states |
|---|---|---|
| User.EligibilityDependsOnlyOnProgress | models/User.js:74-76 | eligibility holds exactly when at least 6 rounds are completed and at least 2 reflections are accepted; no other field matters |
| User.ConvertPendingCredits | models/User.js:79-87 | an eligible account with positive pending credit moves all of it into confirmed credit and reports the amount; otherwise the account is unchanged and 0 is reported; the total balance is conserved and no other field changes |
| User.ConvertPendingCreditsIsIdempotent | models/User.js:79-87 | a second conversion right after a first one converts nothing and changes nothing |
| User.AddFractionalCredits | models/User.js:90-102 | the balance grows by exactly the amount; below the threshold everything stays pending; at or above it, the whole part k (with k ≤ pending < k+1) moves to confirmed credit, leaves a pending fraction in [0, 1), and k is reported |
| User.AccrualIsAdditive | models/User.js:90-102 | accruing x and then a non-negative y gives the same account, and the same total of converted credits, as accruing x + y at once |
| User.ResetMonthlyStats | models/User.js:105-115 | stats from another month are replaced by the zeroed stats of the current month; stats already in the current month are untouched; nothing else changes |
| User.ResetMonthlyStatsIsIdempotent | models/User.js:105-115 | resetting twice in the same month equals resetting once |
| Referral.LevelOf | models/Referral.js:14-18 | a stored level is accepted exactly when it is 1, 2 or 3, and it reads back as that number |
| Referral.LevelRoundTrip | models/Referral.js:14-18 | every level survives being stored as its number and read back |
| Referral.StatusOf | models/Referral.js:23-27 | a stored status is accepted exactly when it is one of the three enum names, and it reads back as that name |
| Referral.Validate | models/Referral.js:3-31 | a document validates exactly when referrer, referred, level, creditAmount and month are present, the level is in {1,2,3} and any status is one of the enum names; the result carries the document's values, a missing status defaults to pending, and a rejection lists at least one path |
| Referral.ValidateRoundTrip | models/Referral.js:3-31 | an edge with non-empty references and month, stored as a document and validated, comes back unchanged |
| Store.FindByCode | models/User.js:17-21 | under the unique index, the lookup returns an account holding the code, or none when no account holds it |
| Store.ToUpper | controllers/referralController.js:131 | the upper-cased code has the same length and no lower-case letter; every other character stays in place, and each lower-case letter becomes the upper-case letter at the same position of the alphabet |
| Store.ToUpperIsIdempotent | controllers/referralController.js:131 | upper-casing an already upper-cased code changes nothing |
| Store.Find | controllers/referralController.js:185-189 | a query returns only matching edges, and every matching edge of the collection |
| Store.FindAppend | controllers/referralController.js:42-45 | querying a collection extended at its end gives the old answer followed by the answer on the new part |
| Caps.CreditAmount | controllers/referralController.js:6-10 | every rate lies in (0, 1], and only level 1 earns a whole credit |
| Caps.CheckMonthlyCaps | controllers/referralController.js:40-65 | an award is allowed exactly when, counting it, the month holds at most 100 edges for the account and, for an L2/L3-rate award, combined L2+L3 credit stays at most 50; the combined-cap reason is reported exactly when that cap trips |
| Caps.L1IsExemptFromCombinedCap | controllers/referralController.js:53-62 | the level-1 rate is never refused by the combined cap; it is allowed exactly when fewer than 100 edges are recorded for the month |
| Caps.CapIgnoresOtherAccountsAndMonths | controllers/referralController.js:42-45 | an edge credited to another account, or recorded in another month, does not change a cap decision |
| Caps.CapIsMonotone | controllers/referralController.js:40-65 | recording more edges of non-negative credit can turn an allowed award into a refused one, never the reverse |
| Caps.AllowedAwardStaysWithinCaps | controllers/referralController.js:13-16 | if every account is within both caps and an allowed award is recorded at its level's rate, every account stays within both caps |
| Redemption.CodeOwner | controllers/referralController.js:131-134 | the code's owner is the account holding the upper-cased code; no owner means that no account holds it |
| Redemption.CodeOwnerIgnoresCase | controllers/referralController.js:131-134 | under unique codes, a code and its upper-cased form find the same owner, so the casing the redeemer types does not matter |
| Redemption.CodeOwnerIsHolder | controllers/referralController.js:131 | under unique codes, the account holding the upper-cased code is the one found |
| Redemption.BindReferrer | controllers/referralController.js:152-155 | the redeemer records the referrer at level 1; no other account and no edge changes |
| Redemption.CountAward | controllers/referralController.js:181 | an award adds one to the month's referral count and adds its rate to the level-2 or level-3 credit total |
| Redemption.RecordAward | controllers/referralController.js:199-215 | an award appends exactly one pending edge at the level's rate; only the ancestor changes, and only in its balances and stats; its balance grows by the rate; its stats are rolled to the month and count the award |
| Redemption.AwardAncestor | controllers/referralController.js:191-217 | a missing or inactive ancestor, or one over its cap, is skipped with the store unchanged; otherwise the ancestor receives exactly the award `RecordAward` describes, and its award edge is appended; no other account changes |
| Redemption.AwardAll | controllers/referralController.js:185-218 | a pass keeps every account's profile; it appends at most one edge per upline edge, each an award of the pass's level and rate to an account that was active and that an upline edge names as referrer; an account no upline edge names is untouched; every balance grows by exactly the credit appended in its name |
| Redemption.RedeemCode | controllers/referralController.js:122-260 | missing input, unknown code, unknown account, already referred and self-referral are refused in that order with the store unchanged; a cap refusal of the direct award leaves only the binding; on success the redeemer is bound, the first appended edge is the level-1 award, every later one is a level-2 or level-3 award for the redeemer, and each balance grows by exactly the credit recorded in its name; which ancestors are paid is stated by `Passes.RedeemCodePaysUpline` |
| Redemption.RedeemCodeKeepsCodes | controllers/referralController.js:122-260 | a redemption keeps every account and its code, so the codes stay unique |
| Redemption.RedeemCodeAtMostOnce | controllers/referralController.js:143-166 | once a redemption has bound the account (success or cap refusal), every later redemption by it is refused with no change, as already referred when the code is valid |
| Passes.PaidAncestorsAreEligibleReferrers | controllers/referralController.js:185-217 | the reference list of paid ancestors holds exactly the accounts that an upline edge names as referrer and that exist, are active and pass the cap check |
| Passes.AwardAllPaysEligibleAncestors | controllers/referralController.js:185-218 | when the upline names distinct referrers, a pass appends exactly one award at the pass's level and rate for each referrer that may be awarded in the store the pass starts from, in upline order, and nothing else |
| Passes.RedemptionStages | controllers/referralController.js:168-254 | an admissible redemption the caps allow ends in the store produced by the direct award, then the level-2 pass over the owner's level-1 ancestor edges, then the level-3 pass over its level-2 ancestor edges, both as found before the redemption |
| Passes.RedeemCodePaysUpline | controllers/referralController.js:168-254 | when each upline names distinct referrers, a successful redemption appends the owner's level-1 edge, then one level-2 award per level-1 ancestor that may be awarded once that edge is recorded, then one level-3 award per level-2 ancestor that may be awarded once the level-2 awards are recorded |
| Passes.RedeemCodeCountsDirectAward | controllers/referralController.js:172-181 | when the owner is not its own ancestor, a successful redemption leaves the owner with its statistics rolled to the month, the direct rate accrued with auto-conversion, and exactly one more referral counted this month |
| Conversion.ConvertCredits | controllers/referralController.js:269-319 | missing id, unknown account and ineligibility are refused with no change; an eligible account sweeps all positive pending credit, reports the amount and the resulting balances, and conserves its total; nothing is stored when nothing moved |
| Conversion.ConvertCreditsTwice | controllers/referralController.js:296-313 | converting again right after a conversion moves nothing, stores nothing and reports the same total |
| Invitation.InviteUser | controllers/referralController.js:68-113 | missing fields and taken email or username are refused with no change; otherwise exactly one account with the schema defaults is added under the new id; code uniqueness and identity uniqueness are preserved |
| Status.Round | controllers/referralController.js:370 | the rounded value lies within half a unit of its argument, with halves rounded up |
| Status.Percentage | controllers/referralController.js:366-377 | the percentage lies within half a unit of current / limit × 100 |
| Status.GetReferralStatus | controllers/referralController.js:322-420 | a missing id or unknown account is refused; otherwise the level rows count and sum the account's edges of the month at each level; eligibility, pending and confirmed credit are the account's; the amount still needed makes pending reach the threshold, and it is zero exactly when auto-conversion is due; cap usage comes from the cached stats with the 50 and 100 limits and rounded percentages; the link ends in the account's code |
| Status.LevelCountsPartitionMonth | controllers/referralController.js:338-355 | the three level counts the status reports add up to the month's edge count that the cap check reads |
| Status.UpperLevelsMakeCombinedCredit | controllers/referralController.js:344-355 | the level-2 and level-3 credit sums of the status add up to the combined credit the cap check reads |
| Status.CanonicalLevelCredits | controllers/referralController.js:6-10 | when every edge carries its level's rate, a level's credit is its count times that rate |
| Invariants.RecordAwardPreservesValid | controllers/referralController.js:199-215 | an award the caps allowed keeps the store valid: unique codes, resolving references, balances in range, stats agreeing with the edges, rates, caps |
| Invariants.BindReferrerPreservesValid | controllers/referralController.js:152-155 | binding an unbound redeemer to another existing account keeps the store valid |
| Invariants.AwardAllPreservesValid | controllers/referralController.js:185-254 | a level-2 or level-3 pass keeps the store valid |
| Invariants.RedeemCodePreservesValid | controllers/referralController.js:122-260 | every redemption, refused or successful, keeps the store valid |
| Invariants.ConvertCreditsPreservesValid | controllers/referralController.js:269-319 | every manual conversion keeps the store valid |
| Invariants.InviteUserPreservesValid | controllers/referralController.js:68-113 | an invitation under a fresh id and an unused code keeps the store valid |
| Invariants.CombinedCreditNonNegative | controllers/referralController.js:47-49 | in a valid store the combined L2+L3 credit of any account is never negative |
| Invariants.StatusAgreesWithLog | controllers/referralController.js:338-377 | for an account whose stats are current in a valid store: the status succeeds; its level counts add up to the cached referral total; its level-2 and level-3 sums add up to the cached combined credit; each level's credit is count × rate; both percentages lie between 0 and 100; auto-conversion is never due |
| Invariants.StaleStatusShowsEarlierMonth | controllers/referralController.js:336-364 | for an account whose stats belong to an earlier month, the level rows are empty while the cap usage still shows the stale stats |
| Scenarios.DirectAwardConvertsAtOnce | tests/api.test.js:81-122 | in any store with an empty log, redeeming the code of a referrer with nothing pending and fresh statistics answers level 1 and 1.0, binds the redeemer, records one level-1 edge, and leaves the referrer with one more confirmed credit, 0 pending and one referral counted this month |
| Scenarios.ChainRedemption | tests/api.test.js:285-366 | in the chain l1 → l2 → l3, a newcomer redeeming l3's code gives l3 one confirmed credit, gives l2 0.25 pending, leaves l1 unchanged, and appends exactly the level-1 and level-2 edges |
| Scenarios.BuiltChainPaysThirdLevel | controllers/referralController.js:184-254 | in a chain a → b → c built by redemptions, a newcomer redeeming c's code appends the level-1 edge to c, a level-2 award of 0.25 to b and a level-3 award of 0.10 to a, and those balances grow by those amounts |
| Scenarios.CircularRedemptionPaysRedeemer | controllers/referralController.js:184-218 | when U referred R and U redeems R's code, U is bound to R and receives a level-2 award of 0.25 for its own redemption |
| Scenarios.EligibleConversion | tests/api.test.js:206-232 | an eligible account with 5 credits and 2.5 pending converts 2.5 and ends with 7.5 credits and 0 pending |
| Scenarios.FirstDirectAwardLeavesNothingPending | tests/referral.test.js:56-72 | a 1.0 accrual on nothing pending converts one whole credit and leaves 0 pending |

## Left out

- Referral-code generation is left out: the uuid prefix and the retry loop until the code is unused (controllers/referralController.js:22-24, 86-94). The generated code and the new document id are parameters of `Invitation.InviteUser`. Its preconditions are the properties that loop and the store guarantee: the id is fresh and the code is unused.
- The wall clock is left out. The month computed at models/User.js:106 and controllers/referralController.js:161, 336 is a single parameter. A redemption that straddles midnight of a month change is therefore not modelled.
- The `FRONTEND_URL` environment variable and its localhost default are left out. The base URL is a parameter.
- Mongoose setters are left out: email lower-casing and trimming of email and username. Identities are compared exactly as given.
- Upper-casing covers ASCII letters only. JavaScript's full Unicode `toUpperCase` is not modelled.
- Absent and empty request fields are both modelled as the empty string. JavaScript treats both as falsy.
- ObjectId cast errors are left out, along with storage failures, the 500 answers, logging and timestamps (`createdAt`, `updatedAt`, `creditedAt`).
- Concurrency and non-transactional saves are left out. Each endpoint is one atomic step. The intermediate saves are not observable, except that the binding survives a cap refusal.
- IEEE-754 rounding is left out: amounts are exact reals. A sum such as 0.1 + 0.2 is exact here, and the code's `===` comparison of rates is exact as well.
- Edge statuses other than `pending` are never produced by the engine. Only their validation is modelled.
- Store.FindByCode: when several accounts held the same code, the lookup would depend on the store's order. The model requires unique codes, which the schema's unique index guarantees.
- Passes.RedeemCodePaysUpline: the exact list of appended awards is stated only when each upline names distinct referrers. When a referrer appears twice, the first edge pays it and the caps see that award on the second edge; `Redemption.AwardAll` still states that only named referrers are paid and that balances follow the appended edges.
- Passes.RedeemCodeCountsDirectAward: the owner's final account is stated only when the owner is not among its own ancestors. When referrals form a cycle through the owner, the owner also receives a level-2 or level-3 award in the same redemption; `Redemption.RedeemCode` still states that its balance grows by exactly the credit recorded in its name.
- Invariants.InviteUserPreservesValid: this lemma assumes a fresh id and an unused code, which the generator loop provides.
