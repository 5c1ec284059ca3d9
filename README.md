# Red-envelope sub-ledger, modelled in Dafny

A red envelope ("gift money") is an amount that one user puts aside for a
number of other users to claim. The model covers three parts of the
repository's red-envelope feature:

- **Share allocation.** A *Fixed* envelope gives every claimant the rounded
  average and gives the last claimant the rest. A *Random* envelope uses the
  "double-average" split: each share is drawn between one cent and twice the
  current average, always leaving a cent for everyone after. Both rules are
  in `allocation.dfy`.
- **The envelope lifecycle.** This is creating an envelope (the creator's
  balance is debited), claiming a share (the claimer is credited), and
  reading an envelope with its claims. It is in `lifecycle.dfy`, over the data
  model and store invariant in `ledger.dfy`.
- **The expiry sweep.** The sweep expires envelopes that outlived their 24
  hours and refunds whatever they still hold to their creators. It is in
  `sweeper.dfy`.

Some terms used below:

- An **envelope** has a total, a remaining amount, a total and a remaining
  count of claimants, a status (Active, Finished, Expired) and an expiry time.
- A **claim row** records that a user took a share of an envelope.
- The **journal** is the sequence of ledger orders. Each debit, credit and
  refund appends one order.
- **Cents.** Amounts are whole cents (`money.dfy`). A create request's amount
  stays a decimal (coefficient, exponent), because the source checks how many
  fractional digits it is written with, not its value.
- **The store.** The database is a `Store` object holding the envelopes keyed
  by claim code, the claim rows, the balances, the journal and the next
  envelope id. Each database transaction is one method. It either applies all
  of its updates or reports an error and changes nothing.
- **The "consistent" invariant** (`Ledger.Consistent`) says, for every
  envelope that has not expired:
  - its claims plus what is left equal what was created, in cents and in
    claimants;
  - nobody has claimed it twice;
  - a Finished envelope has nothing left.

  Every operation preserves this invariant.
- **Parameters of the model.** The clock, the random draw, the pay-key
  verdict, the generated claim code, the feature switch and the set of sweep
  items whose transaction fails are all parameters.

### What the model proves about the source as written

- **A Fixed envelope can hand its last claimant a negative share.** 0.15 over
  ten claimants passes the one-cent-per-share check at creation. But the
  rounded average 0.02 is paid nine times, so the last claimant is handed
  −0.03 (`Allocation.FixedTailCanBeNegative`). Every share is non-negative
  when twice the total is at least count·(count − 1) cents
  (`Allocation.FixedRunNonNegative`).
- **A Random envelope can hand out 0.00.** This happens when it holds less
  than a cent per claimant, which creation allows for Random envelopes
  (`Allocation.FallbackCanBeZero`).
- **The sweep can refund a stale amount.** It credits the creator with the
  amount in its snapshot, whether or not its guarded update still matched
  the stored row (`Sweeper.RefundOne`).

## Model

| member | source | states |
|---|---|---|
| Money.ToCents | internal/apps/redenvelope/routers.go:112-115 | the cents of a decimal with at most two fractional digits are positive exactly when its coefficient is, and zero exactly when it is zero, so the "amount ≤ 0" check is a check on the coefficient |
| Money.CentsRoundTrip | internal/apps/redenvelope/routers.go:117-120 | an amount written with two fractional digits converts to exactly its cents |
| Money.RoundDiv | internal/apps/redenvelope/routers.go:269 | rounding to cents keeps the sign of the amount: a non-negative amount rounds to a non-negative share, zero to zero |
| Money.RoundDivSymmetric | internal/apps/redenvelope/routers.go:269 | rounding halves away from zero treats a negative amount as the mirror image of its positive |
| Money.RoundDivNearest | internal/apps/redenvelope/routers.go:269 | the rounded quotient is the integer nearest to a/b, with halves rounded away from zero (Round(2) of an exact quotient) |
| Money.RoundDivBounds | internal/apps/redenvelope/routers.go:269 | the rounded quotient of a non-negative amount lies between 0 and the amount |
| Money.RoundDivExact | internal/apps/redenvelope/routers.go:269 | an exact multiple rounds to itself |
| Allocation.DrawCeiling | internal/apps/redenvelope/routers.go:474-487 | the upper end of the random range is at least one cent and leaves one cent for each other claimant, and it is the largest such amount: either it leaves exactly one cent for each other claimant, or one cent more would exceed twice the average |
| Allocation.DrawCeilingIsTwiceAverage | internal/apps/redenvelope/routers.go:475-482 | the upper end of the range is at most twice the average share |
| Allocation.RandomShare | internal/apps/redenvelope/routers.go:459-506 | the last claimant takes everything left; with a cent per claimant the share is between one cent and what leaves a cent for each other claimant; short of that, the share is 0 or 1 cent, and 1 exactly when the average is at least half a cent |
| Allocation.FallbackShare | internal/apps/redenvelope/routers.go:468-472 | the even-split fallback rounds to 0 or 1 cent, and to 1 exactly when twice what is left reaches the count |
| Allocation.RandomShareCap | internal/apps/redenvelope/routers.go:474-505 | a non-terminal Random share never exceeds the range's upper end or twice the current average |
| Allocation.RandomShareReachable | internal/apps/redenvelope/routers.go:489-505 | every amount from one cent to the upper end is the share for some draw |
| Allocation.RandomKeepsMinimum | internal/apps/redenvelope/routers.go:474-505 | after a claim from a Random envelope with a cent per claimant, a cent per remaining claimant is still left, so such an envelope never reaches the fallback |
| Allocation.FallbackCanBeZero | internal/apps/redenvelope/routers.go:468-472 | one cent among three claimants gives a share of 0.00 |
| Allocation.FixedShare | internal/apps/redenvelope/routers.go:264-270 | the last claimant of a Fixed envelope gets exactly what is left; any other claimant gets the total divided by the count, rounded to the nearest cent, whatever is left |
| Allocation.FixedRunConserves | internal/apps/redenvelope/routers.go:264-270 | the shares of all claimants of a Fixed envelope add up to exactly what was left |
| Allocation.FixedRunShares | internal/apps/redenvelope/routers.go:264-270 | every claimant but the last gets the rounded average; the last gets what was left minus the others' shares |
| Allocation.FixedRunNonNegative | internal/apps/redenvelope/routers.go:264-270 | no share of a Fixed envelope is negative when twice its total in cents is at least count·(count − 1) |
| Allocation.FixedTenOverThree | internal/apps/redenvelope/routers.go:264-270 | 10.00 over three Fixed claimants gives 3.33, 3.33, 3.34 |
| Allocation.FixedTailCanBeNegative | internal/apps/redenvelope/routers.go:264-270 | 0.15 over ten Fixed claimants hands the last claimant −0.03 |
| Allocation.RandomRunConserves | internal/apps/redenvelope/routers.go:459-506 | the shares of all claimants of a Random envelope add up to exactly what was left, whatever the draws |
| Allocation.RandomRunAtLeastOneCent | internal/apps/redenvelope/routers.go:474-505 | every claimant of a Random envelope created with a cent per claimant receives at least one cent |
| Ledger.OrderName | internal/apps/redenvelope/routers.go:178-193 | a journal entry is named "base-greeting", or the bare base exactly when the greeting is empty |
| Ledger.ClaimShare | internal/apps/redenvelope/routers.go:263-274 | the last claimant takes what is left, whatever the type; a non-terminal Random claimant with a cent per claimant left gets between one cent and what leaves a cent for each other claimant |
| Ledger.AfterClaim | internal/apps/redenvelope/routers.go:287-292 | a claim takes the share off what is left and one claimant off the count; the envelope becomes Finished exactly when no claimant is left (or it already was), otherwise keeps its status; every other field, the greeting included, is kept |
| Ledger.Expire | internal/apps/redenvelope/tasks.go:61-67 | an expired envelope is Expired with nothing and nobody left; every other field (id, code, creator, type, total, count, greeting, expiry time) is kept, and it is still well formed |
| Ledger.FinishedFullyClaimed | internal/apps/redenvelope/routers.go:287-292 | in a consistent store, the claims of a Finished envelope add up to its total, and their number is its count |
| Ledger.Credit | internal/apps/redenvelope/routers.go:308-312 | the user's balance rises by exactly the amount; no other balance changes and no balance row appears |
| Ledger.FixedEnvelopeClaimedOut | internal/apps/redenvelope/routers.go:263-292 | claiming a 10.00 Fixed envelope three times yields 3.33, 3.33, 3.34; it stays Active until the last claim, which leaves it Finished and empty |
| Ledger.ClaimsOfMembers | internal/apps/redenvelope/routers.go:375-381 | the claims listed for an envelope are exactly the stored claim rows of that envelope |
| Ledger.CreateKeepsConsistent | internal/apps/redenvelope/routers.go:159-175 | inserting a new Active envelope under a fresh code and the next id keeps the store consistent |
| Ledger.ClaimKeepsConsistent | internal/apps/redenvelope/routers.go:276-306 | a first claim by a user on an Active envelope, where the last claimant takes what is left, keeps it accounted for (claims plus remaining equal the total, in cents and in claimants), keeps claims unique per user, and leaves a Finished envelope empty |
| Ledger.ExpireKeepsConsistent | internal/apps/redenvelope/tasks.go:61-67 | expiring an envelope keeps the store consistent |
| Lifecycle.CheckCreate | internal/apps/redenvelope/routers.go:100-136 | a create request passes exactly when the feature is on, the request binds, the amount is positive with at most two written decimals, a Fixed envelope has a cent per share, and the pay key is right; a pass yields the positive total in cents; each failure names the first check that fails: Disabled, InvalidRequest, InvalidAmount (non-positive amount), DecimalPlacesExceeded (more than two written decimals), AmountTooSmall (a Fixed envelope under a cent per share), PayKeyIncorrect |
| Lifecycle.FixedTooSmallRejected | internal/apps/redenvelope/routers.go:122-129 | 0.02 over three Fixed shares is rejected as too small |
| Lifecycle.DecimalPlacesByExponent | internal/apps/redenvelope/routers.go:117-120 | 1.000 is rejected for its decimal places although it is a whole unit; 1.00 and 1 are accepted as 100 cents |
| Lifecycle.FindOwnClaim | internal/apps/redenvelope/routers.go:383-391 | the result is absent exactly when no row belongs to the caller, and otherwise is the first row of the caller |
| Lifecycle.Store.Create | internal/apps/redenvelope/routers.go:99-210 | every rejection, including missing user and insufficient balance, leaves the store unchanged; success debits the creator by exactly the total, inserts an Active envelope with everything remaining that expires 24 hours later, appends one send order, and keeps the store consistent |
| Lifecycle.Store.Claim | internal/apps/redenvelope/routers.go:219-350 | rejections come in the source's order (not found, expired, finished, already claimed) and change nothing; success takes the share off the envelope and one claimant off its count, finishes it exactly when no claimant is left, appends one claim row and one order from creator to claimer, credits only the claimer, changes no other envelope, and keeps the store consistent; a user who has claimed is never credited again |
| Lifecycle.Store.GetDetail | internal/apps/redenvelope/routers.go:358-398 | an unknown code is not found; otherwise the result is the envelope, its claim rows, and the caller's own claim, present exactly when the caller has claimed and then the only row of that caller |
| Lifecycle.OwnClaimIsUnique | internal/apps/redenvelope/routers.go:256-261 | since nobody claims an envelope twice, a user's claim row of an envelope is the only one |
| Sweeper.RefundOne | internal/apps/redenvelope/tasks.go:59-104 | the guarded update expires the envelope only if the stored row is still the Active envelope of the snapshot; the creator is credited with the snapshot amount and one refund order is appended whether or not the update matched |
| Sweeper.RefundItem | internal/apps/redenvelope/tasks.go:59-104 | one successful item of the sweep expires its envelope, credits its creator and appends its refund order, advancing the sweep's progress by that one envelope |
| Sweeper.RefundEach | internal/apps/redenvelope/tasks.go:57-108 | over the snapshot, exactly the non-failing items are expired, each creator is credited with their snapshot amounts in order, one refund order per item is appended, and failing items are left untouched |
| Sweeper.RefundExpired | internal/apps/redenvelope/tasks.go:40-109 | the sweep selects exactly the Active, expired, non-empty envelopes; it refunds each non-failing one once; an empty selection changes nothing; afterwards only the failing items are still selected; every refunded envelope is fully resolved, its claims plus its refund equal its total in cents and in claimants |
| Sweeper.Selected | internal/apps/redenvelope/tasks.go:43-45 | an envelope the sweep selects is Active, expired and non-empty; if well formed, it still has claimants left |
| Sweeper.SweepTwice | internal/apps/redenvelope/tasks.go:43-67 | the first sweep, with nothing failing, refunds exactly the selected envelopes; a second sweep then refunds nothing and changes nothing; claim rows and the next id are untouched throughout and the store stays consistent |
| Sweeper.SelectionAfterExpire | internal/apps/redenvelope/tasks.go:43-67 | expiring selected envelopes removes exactly them from the selection |
| Sweeper.CreditAllBalances | internal/apps/redenvelope/tasks.go:72-77 | each creator's balance rises by exactly the snapshot amounts of their refunded envelopes; no other balance changes |
| Sweeper.RefundOrdersTotal | internal/apps/redenvelope/tasks.go:79-99 | the refund orders of a sweep add up to the snapshot amounts refunded |
| Sweeper.RefundOrdersEntries | internal/apps/redenvelope/tasks.go:79-99 | each refund order goes from an envelope's creator to that creator, for its snapshot amount |

## Left out

- Concurrency: the `NOWAIT` row locks and every interleaving of transactions. Each transaction is atomic, and one sweep runs its items one after another. So within a sweep the snapshot always matches the stored row. A claim landing between the query and the item (the stale snapshot) is captured only by `Sweeper.RefundOne`, which works on any store.
- Infrastructure failures:
  - the failure of an insert or update inside Create or Claim (a generic error, rolled back);
  - the sweep's query failing (logged, nothing changes);
  - the claims query of GetDetail, whose error the source ignores.

  Only the sweep's per-item failures are modelled, as the parameter `failing`.
- Generic transaction errors become named errors in the model:
  - Create's lock query failing because the creator has no user row becomes `UserNotFound`;
  - a collision of the generated claim code on insert becomes `DuplicateCode`.
- Gin request binding is reduced to its checks:
  - at least one claimant;
  - a greeting of at most 100 characters;
  - a pay key of 1 to 10 characters;
  - a non-empty claim code.

  The envelope type is a closed datatype, so an unknown type cannot be sent. The `required` tag on the amount is not modelled.
- JSON responses, HTTP status codes and the link built from the configured front-end URL.
- The feature switch `IsRedEnvelopeEnabled` is the parameter `enabled`. Code generation is the parameter `code`. Pay-key verification is the parameter `payKeyOk`.
- The `List` endpoint, pagination, and the joined creator and claimer display fields of GetDetail.
- Claim order: GetDetail orders claims newest first by `claimed_at`, and the model lists them newest first by insertion order. These agree when the clock does not run backwards and no two claims share a timestamp.
- Order fields that are constant or only descriptive: client id, status, remark, payment type and order expiry. The refund order's type is the constructor `RedEnvelopeRefund`, not the literal type string.
- Decimal precision: the decimal library's division keeps 16 digits, and the model divides exactly before rounding to cents.
- Integer widths: counts and cents are unbounded integers, so no 64-bit overflow is modelled.
- Logging.
- Redis client setup, task queue options and the OAuth flow: they are outside the red-envelope core.
- Claiming one's own envelope: the `CannotClaimOwnRedEnvelope` error is declared but no code raises it, so the model lets a creator claim their own envelope.
- The expiry boundary at the exact second:
  - Claim rejects an envelope only when its expiry time is strictly before now (`internal/apps/redenvelope/routers.go:248`);
  - the sweep selects only `expires_at < now` (`internal/apps/redenvelope/tasks.go:44`);
  - so at the exact expiry second an envelope is still claimable and not yet refunded.
- The order in which the sweep visits envelopes is left open, as the query leaves it. The expired envelopes are the same for every order. The balances and the journal are stated in terms of the visit order (`done`); the model does not prove that each creator's total refund is the same for every order.
