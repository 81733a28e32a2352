# LeaseFlow: a verified model of the lease contracts

LeaseFlow is a set of Soroban contracts for leases: a lifecycle contract with an escrow vault and
credit records, an escrow solvency tracker, dust accounting, calendar-based rent proration, token
hierarchies for access rights, and a continuous billing module. This project models their logic in
Dafny and proves what the contracts keep over every run.

Each stateful contract is modelled twice. A value-level module gives one function per entry point,
from the stored state to the new state or an error, a `Run` over sequences of calls, and the theorems
about runs. For each entry point, lemmas whose names end in `Exact` or `Decided` state in the caller's
terms when it is accepted, which error it gives otherwise, and what it leaves in every field. A class
with the contract's own fields gives the entry points as the source writes them, updating field by
field; each method is proved to have exactly the effect of its function, and the entry points to keep
the class's `Valid()`, the invariant that the run theorems are about. A failed call of a contract is
rolled back by the host; where the source keeps a record in memory instead (dust accounting, the
escrow tracker's loaded copy), the model keeps what a failing call changed.

| file | contents |
|---|---|
| `Arith.dfy` | machine integers, results, sums, index lists, token ids |
| `LeaseLifecycle.dfy` | the lifecycle contract's entry points and oracle-priced rent |
| `LeaseLifecycleCalls.dfy` | what each entry point answers and changes |
| `LeaseLifecycleBooks.dfy` | vault, credit records and lease states over every run |
| `OraclePricing.dfy` | price drift under the volatility circuit breaker |
| `LeaseFlowContract.dfy` | the lifecycle contract as a class |
| `EscrowLedger.dfy`, `EscrowTracker.dfy` | the escrow solvency tracker, on values and as a class |
| `OperationOrder.dfy` | order independence of creations and of the fuzzer's batches |
| `Calendar.dfy`, `RentProration.dfy`, `LeaseMath.dfy` | civil dates, first-month rent, billing dates, month lengths |
| `DustAccounting.dfy` | apportionment and the dust ledger |
| `SubleaseForest.dfy`, `SubleaseBurn.dfy` | the sub-lease forest and the recursive burn |
| `LeaseInstances.dfy` | the stored lease record that the token contracts read |
| `LessorNft.dfy`, `LesseeTokens.dfy` | holder, lessee and asset indexes, locks, yield, revocation |
| `ContinuousBilling.dfy`, `BillingCharges.dfy` | the billing schedule, and what is charged over a run |

`dafny verify dfyconfig.toml` checks the whole project.

## Modelling decisions

- Integer widths are explicit: `I64`, `I128`, `U64` and `U32` are subset types, and every operation
  that the source leaves unchecked fails as an abort when it leaves its width (overflow checks are on
  in the release profile, Cargo.toml:19).
- The clock, the oracle's answer, the lease instances of the other contract and the ledger sequence
  number are parameters. Within one call the oracle gives one answer.
- `activate_lease` uses a variable that is not bound (contracts/leaseflow/src/lib.rs:341); it is read as
  the lease's deposit. In `calculate_yield_proration` the product of a 64-bit and a 128-bit integer is
  read in 128 bits, and transfer records are not stored, since their key uses a missing field.
- `mint_derived_access_token` looks a parent up in the lessee-token table and its depth in the derived
  table; the model uses one lookup over both, with roots at depth 0 as the field's documentation says.
  That a new id is unused is a hypothesis on runs (`SubleaseBurn.FreshRun`); `DerivedIdClash` says
  exactly when two ids clash.

## Where the code does less than it promises

- A slash is accepted only when truncation loses nothing, so its dust bookkeeping never has an effect
  that is saved, and legal percentages are rejected (`EscrowLedger.SlashExact`,
  `EscrowLedger.SlashRejectsTruncation`); the unit test at
  contracts/leaseflow_contracts/src/escrow_invariant.rs:657 expects recorded dust.
- `get_seconds_in_month` reads the first day of most months of a leap year as the day before
  (`LeaseMath.SecondsInMonthExact`, `LeaseMath.FebruaryMisread`); the unit test at
  crates/leaseflow_math/src/lib.rs:277 expects 29 days for February 2024.
- Creations of the same leases can succeed in one order and fail in another; this happens exactly
  when the escrow is empty, the deposits, none negative, include zero and not only zero, and the
  counters can take them all (`OperationOrder.OrderMattersExactly`).
- A fiat-pegged payment can be accepted at a negative price when the quotient wraps
  (`OraclePricing.AcceptedPriceSign`, `OraclePricing.NegativePriceAccepted`).
- A recovery whose running total overflows leaves the dust ledger unbalanced, and nothing else does
  (`DustAccounting.RunConservesDust`, `DustAccounting.OverflowingRecovery`). Dust per signer is recorded
  where a signer is listed twice, though the split leaves none (`DustAccounting.SignerDustExact`,
  `DustAccounting.DuplicateSignerDust`).
- Revoking a root lessee token leaves its sub-leases valid, and their hierarchy cannot be burned from
  the root (`SubleaseBurn.RevokedRootKeepsSubleases`, `SubleaseBurn.SubleaseOutlivesRoot`).
- A lessor token that is transferred before its lease starts accrues from the transfer on, so time
  before the lease is paid for (`LessorNft.YieldOverRun`, `LessorNft.EarlyTransferPaid`).
- A lease that starts at time 0 is billed for its first window again and again, as often as the
  counters allow (`ContinuousBilling.ZeroStartUnbounded`); tiling and the bound on the number of
  cycles hold exactly for the other leases (`ContinuousBilling.TilingExact`,
  `ContinuousBilling.CountExact`, `ContinuousBilling.RegistrationExact`).
- A cycle processed after the end of its window is charged into the next one, and those seconds are
  charged again by the next cycle (`BillingCharges.ChargedOverRun`, `BillingCharges.LateCycles`).
- Two cycles billed in the same ledger share one record, which the second overwrites
  (`ContinuousBilling.RecordKept`, `BillingCharges.LateCycles`).
- An expired access token can no longer be revoked (`LesseeTokens.RevokeKeepsStore`), so a lease that
  ends after its token has expired can hold a valid token again (`LesseeTokens.RevivalExactly`,
  `LesseeTokens.TerminatedTokenRevived`).

## Model

| member | source | states |
|---|---|---|
| `LeaseFlowContract.LeaseFlow.constructor` | contracts/leaseflow/src/lib.rs:204-226 | a fresh contract holds nothing and its books balance |
| `LeaseFlowContract.LeaseFlow.Create` | contracts/leaseflow/src/lib.rs:229-319 | creation stores a pending lease that carries the terms asked for under the next id, or fails and changes nothing; the books stay balanced |
| `LeaseFlowContract.LeaseFlow.Activate` | contracts/leaseflow/src/lib.rs:322-375 | activation by the lessee locks the deposit and makes the lease active, or changes nothing |
| `LeaseFlowContract.LeaseFlow.PayRent` | contracts/leaseflow/src/lib.rs:378-427 | the in-place payment has exactly the effect of the payment step |
| `LeaseFlowContract.LeaseFlow.FailRent` | contracts/leaseflow/src/lib.rs:430-468 | a missed payment starts dunning with the rent and its late fee, or changes nothing |
| `LeaseFlowContract.LeaseFlow.CheckGrace` | contracts/leaseflow/src/lib.rs:471-506 | expiry evicts and deducts in one transaction; a failing deduction undoes the eviction |
| `LeaseFlowContract.LeaseFlow.TriggerCheck` | contracts/leaseflow/src/lib.rs:790-800 | only the lessor can force the check, which then does the same |
| `LeaseFlowContract.LeaseFlow.Deduct` | contracts/leaseflow/src/lib.rs:544-652 | called between transactions it always fails and changes nothing; inside the expiry check it moves vault balances and updates the credit record as its step says |
| `LeaseFlowContract.LeaseFlow.PayFiat` | contracts/leaseflow/src/lib.rs:743-787 | an oracle-priced payment records price, time and amount, or changes nothing |
| `LeaseFlowContract.LeaseFlow.Terminate` | contracts/leaseflow/src/lib.rs:803-876 | termination closes an active lease and returns the refund, less the penalty when hasty |
| `LeaseLifecycleCalls.CreationExact` | contracts/leaseflow/src/lib.rs:229-319 | creation is decided by the terms and the id counter; the one new lease carries every term, and the prorated initial rent exactly when the start has passed and it could be computed; other leases, vault and credit stay |
| `LeaseLifecycleCalls.ActivationExact` | contracts/leaseflow/src/lib.rs:322-375 | only the lessee activates, once; locked and available totals rise by the deposit and the payment clock starts |
| `LeaseLifecycleCalls.PaymentDecided` | contracts/leaseflow/src/lib.rs:378-427 | a payment that covers the rent, in grace with the late fee, clears what is due and adds to the total paid |
| `LeaseLifecycleCalls.MissedPaymentExact` | contracts/leaseflow/src/lib.rs:430-468 | a missed payment makes the rent due with a fee of the rate in ten-thousandths of the rent, rounded down |
| `LeaseLifecycleCalls.CreditUpdateExact` | contracts/leaseflow/src/lib.rs:623-652 | a default adds its debt, one count, its time and its lease to the lessee's record and touches no other |
| `LeaseLifecycleCalls.ArrearsExact` | contracts/leaseflow/src/lib.rs:544-620 | the deduction from any state: its errors, and the arrears or deposit, whichever is less, moved from the available balance to the treasury, the rest booked as debt |
| `LeaseLifecycleCalls.ExpiryIdle` | contracts/leaseflow/src/lib.rs:471-506 | outside an expired grace period the check does nothing, and only the lessor can force it |
| `LeaseLifecycleCalls.OraclePriceExact` | contracts/leaseflow/src/lib.rs:667-707 | a price is taken exactly when it is fresh and, against a recent stored price, within the limit |
| `LeaseLifecycleCalls.PeggedRentExact` | contracts/leaseflow/src/lib.rs:710-740 | at a positive price the rent is the target in the oracle's decimals over the price, rounded down, when positive and 64 bits wide |
| `LeaseLifecycleCalls.FiatPaymentExact` | contracts/leaseflow/src/lib.rs:743-787 | an oracle-priced payment records price, time and amount on an active, pegged lease and nothing else |
| `LeaseLifecycleBooks.EvictionExact` | contracts/leaseflow/src/lib.rs:471-506 | an overdue lease is evicted and its arrears or deposit moved to the treasury exactly when every changed total fits its width; no other error is possible |
| `LeaseLifecycleBooks.PaymentExact` | contracts/leaseflow/src/lib.rs:378-427 | a payment is accepted exactly when it covers the rent, or in grace the whole arrears, and fits; it clears everything due |
| `LeaseLifecycleBooks.GraceWindow` | contracts/leaseflow/src/lib.rs:430-506 | exactly when a missed payment opens a grace window; within it the expiry check does nothing, after it the check evicts unless a total overflows |
| `LeaseLifecycleCalls.TerminationExact` | contracts/leaseflow/src/lib.rs:803-876 | either party can close exactly an active lease; the payout is the refund, less a tenth rounded down within a day of the last payment |
| `LeaseLifecycleBooks.DirectDeductionFails` | contracts/leaseflow/src/lib.rs:544-555 | between calls a direct deduction never succeeds, with the error determined by the lease's state |
| `LeaseLifecycleBooks.AvailableCoversDeposit` | contracts/leaseflow/src/lib.rs:569-573 | the available balance always covers the deposit of a lease in grace |
| `LeaseLifecycleBooks.StepKeepsInv` | contracts/leaseflow/src/lib.rs:229-876 | every call keeps vault, credit and lease invariants and never reports a vault underflow |
| `LeaseLifecycleBooks.ReachableVault` | contracts/leaseflow/src/lib.rs:322-375 | in every reachable state lease ids lie below the next id, locked = available + treasury, locked is the sum of deposits past Pending, treasury the sum of seized amounts; underflow and the other error branches of expiry are dead |
| `LeaseLifecycleBooks.ReachableCredit` | contracts/leaseflow/src/lib.rs:564-652 | in every reachable state every lessee's debt is the sum of arrears beyond deposit over exactly the evicted leases listed, without duplicates, and the default count is their number |
| `LeaseLifecycleBooks.ReachableLease` | contracts/leaseflow/src/lib.rs:378-521 | in every reachable state eviction and processed arrears coincide, and dunning date, outstanding rent and late fee are set exactly in grace or eviction |
| `LeaseLifecycleBooks.StepOnLease` | contracts/leaseflow/src/lib.rs:378-876 | one call moves a lease only along the edges of the state diagram |
| `LeaseLifecycleBooks.RunOnLease` | contracts/leaseflow/src/lib.rs:378-876 | over any run terms never change, evicted and closed leases are frozen, and treasury and locked total never fall |
| `OraclePricing.BreakerBounds` | contracts/leaseflow/src/lib.rs:686-704 | a price that passes the breaker is strictly within limit + 1 basis points of the stored one, on both sides |
| `OraclePricing.PriceDrift` | contracts/leaseflow/src/lib.rs:667-787 | over any run with n prompt, positively priced payments the stored price stays strictly within the n-th powers of the two bounds |
| `OraclePricing.AcceptedPriceSign` | contracts/leaseflow/src/lib.rs:710-740 | an accepted payment used a positive price exactly when the quotient is not below the 64-bit range |
| `OraclePricing.NegativePriceAccepted` | contracts/leaseflow/src/lib.rs:725-787 | a lease created and activated from the initial state accepts a payment at a price of -1 |
| `EscrowLedger.VerifyExact` | contracts/leaseflow_contracts/src/escrow_invariant.rs:67-116 | the check passes exactly for solvent states |
| `EscrowLedger.CreationExact` | contracts/leaseflow_contracts/src/escrow_invariant.rs:119-139 | exactly when a creation is accepted, and its effect |
| `EscrowLedger.YieldExact` | contracts/leaseflow_contracts/src/escrow_invariant.rs:142-165 | exactly when yield is accepted; the total does not move |
| `EscrowLedger.DisputeExact` | contracts/leaseflow_contracts/src/escrow_invariant.rs:168-192 | a dispute is accepted exactly up to active plus pending, and takes pending yield first |
| `EscrowLedger.SettlementSourcesExact` | contracts/leaseflow_contracts/src/escrow_invariant.rs:516-529 | the waterfall pays in full and empties each source before the next |
| `EscrowLedger.SettlementExact` | contracts/leaseflow_contracts/src/escrow_invariant.rs:195-257 | exactly when a settlement is accepted, lease-count rule included; its dust error is dead |
| `EscrowLedger.ReleaseExact` | contracts/leaseflow_contracts/src/escrow_invariant.rs:260-308 | a release is accepted exactly when it names the whole total and at most one lease is open; its sum error is dead |
| `EscrowLedger.ShortfallBounds` | contracts/leaseflow_contracts/src/escrow_invariant.rs:335-344 | the truncated parts never exceed the slash and fall short by k with 10000 k at most T + 29996 |
| `EscrowLedger.ShortfallRemainders` | contracts/leaseflow_contracts/src/escrow_invariant.rs:327-344 | ten thousand times what a slash loses is the sum of the four remainders of its divisions, so it loses nothing exactly when each divides evenly |
| `EscrowLedger.SlashExact` | contracts/leaseflow_contracts/src/escrow_invariant.rs:311-362 | after the checked product nothing overflows; accepted exactly when no division truncates and no lease is left without escrow; dust is never recorded |
| `EscrowLedger.SlashTaken` | contracts/leaseflow_contracts/src/escrow_invariant.rs:311-362 | an accepted slash takes the percentage of the total, rounded down, and the same of every component, each exactly its share of the total slash |
| `EscrowLedger.SlashAccepted` | contracts/leaseflow_contracts/src/escrow_invariant.rs:311-362 | when a slash is accepted, in products of the total, the percentage and the components only |
| `EscrowLedger.SlashRejectsTruncation` | contracts/leaseflow_contracts/src/escrow_invariant.rs:311-362 | a whole family of legal slashes that is rejected |
| `EscrowLedger.StepKeepsSolvency` | contracts/leaseflow_contracts/src/escrow_invariant.rs:67-362 | every update keeps solvency and moves exactly the requested flow; the broken-books errors are dead |
| `EscrowLedger.RunKeepsSolvency` | contracts/leaseflow_contracts/src/escrow_invariant.rs:67-362 | over any run total = parts = vault, and the total is all deposits minus all payouts and slashes |
| `EscrowTracker.Tracker.constructor` | contracts/leaseflow_contracts/src/escrow_invariant.rs:36-47 | a new tracker is solvent |
| `EscrowTracker.Tracker.Load` | contracts/leaseflow_contracts/src/escrow_invariant.rs:50-55 | loading restores the last saved state |
| `EscrowTracker.Tracker.VerifyAndSave` | contracts/leaseflow_contracts/src/escrow_invariant.rs:58-116 | only a state that passes the check is saved |
| `EscrowTracker.Tracker.ApplyLeaseCreation` | contracts/leaseflow_contracts/src/escrow_invariant.rs:119-139 | the in-place update saves what its step says, or saves nothing |
| `EscrowTracker.Tracker.ApplyYieldAccumulation` | contracts/leaseflow_contracts/src/escrow_invariant.rs:142-165 | the same for yield |
| `EscrowTracker.Tracker.ApplyDisputeInitiation` | contracts/leaseflow_contracts/src/escrow_invariant.rs:168-192 | the same for a dispute |
| `EscrowTracker.Tracker.ApplyLeaseSettlement` | contracts/leaseflow_contracts/src/escrow_invariant.rs:195-257 | the same for a settlement |
| `EscrowTracker.Tracker.ApplyMutualRelease` | contracts/leaseflow_contracts/src/escrow_invariant.rs:260-308 | the same for a release |
| `EscrowTracker.Tracker.ApplyPartialSlashing` | contracts/leaseflow_contracts/src/escrow_invariant.rs:311-362 | the same for a slash, which takes the percentage of the total and of every component |
| `OperationOrder.CreationsClosedForm` | contracts/leaseflow_contracts/src/escrow_invariant.rs:119-139 | success and result of a batch of creations depend only on sums |
| `OperationOrder.CreationsOrderIndependent` | contracts/leaseflow_contracts/src/escrow_invariant.rs:119-139 | two orders of the same deposits agree on success and on the final escrow |
| `OperationOrder.SuccessShape` | contracts/leaseflow_contracts/src/escrow_invariant.rs:67-139 | a batch that succeeds has no negative deposit, fits all counters, and into an empty escrow begins with a positive deposit |
| `OperationOrder.OrderMattersExactly` | contracts/leaseflow_contracts/src/escrow_invariant.rs:67-139 | one ordering succeeds and another fails exactly when the escrow is empty, the deposits are non-negative with a zero and a positive one among them, and the sums fit |
| `OperationOrder.BatchOrderIndependent` | fuzz/fuzz_targets/fuzz_concurrent_operations.rs:181-219 | reordering a batch of creations and deposits, of any sign, changes neither success nor result |
| `OperationOrder.OperationExact` | fuzz/fuzz_targets/fuzz_concurrent_operations.rs:181-219 | an operation is decided by its amount and the totals, and adds the amount to total, active and vault |
| `OperationOrder.ReverseOf` | fuzz/fuzz_targets/fuzz_concurrent_operations.rs:542-546 | the reverse order, and that it is a permutation |
| `OperationOrder.InterleavingIsPermutation` | fuzz/fuzz_targets/fuzz_concurrent_operations.rs:547-560 | the first-last interleaving is a permutation |
| `OperationOrder.InterleavingAt` | fuzz/fuzz_targets/fuzz_concurrent_operations.rs:547-560 | the interleaving alternates between the front and the back |
| `OperationOrder.Interleave` | fuzz/fuzz_targets/fuzz_concurrent_operations.rs:547-560 | the two-pointer loop computes it, and aborts exactly below two operations |
| `OperationOrder.ConcurrentEscrow.ApplyOperation` | fuzz/fuzz_targets/fuzz_concurrent_operations.rs:181-403 | an accepted creation or deposit has the effect of its step and is logged; a refused one changes nothing; the invariant check never fails |
| `OperationOrder.LogReplays` | fuzz/fuzz_targets/fuzz_concurrent_operations.rs:382-399 | replaying the logged operations from the start gives the current state |
| `OperationOrder.ConcurrentEscrow.ExecuteAll` | fuzz/fuzz_targets/fuzz_concurrent_operations.rs:563-567 | the loop has the effect of the batch, stops at the first error, and on success logs the batch in order |
| `OperationOrder.ConcurrentEscrow.ExecuteInOrder` | fuzz/fuzz_targets/fuzz_concurrent_operations.rs:524-568 | whatever execution order is chosen, a batch succeeds and ends as if executed in the order given, with a permutation of it in the log |
| `Calendar.DayRoundTrip` | contracts/leaseflow_contracts/src/proration.rs:4-19 | every day count gives a valid date that the inverse formula counts back |
| `Calendar.DateRoundTrip` | crates/leaseflow_math/src/lib.rs:177-228 | every valid date is found again from its day count |
| `Calendar.ClosedFormIsCalendar` | contracts/leaseflow_contracts/src/proration.rs:4-33 | for every timestamp the closed form is the date reached by stepping day by day from 1970-01-01 |
| `RentProration.OccupiedExact` | contracts/leaseflow_contracts/src/proration.rs:37-48 | elapsed and occupied seconds split the calendar month; the saturating subtraction never saturates |
| `RentProration.FirstMonthRentExact` | contracts/leaseflow_contracts/src/proration.rs:37-53 | the rent is between 0 and the full rent, and is the full rent exactly from a month's first second when the product fits |
| `RentProration.FirstMonthRentIs` | contracts/leaseflow_contracts/src/proration.rs:37-53 | the rent is the full rent times the seconds from the start to the next month over the seconds of the calendar month, rounded toward zero, saturated or not |
| `RentProration.LaterStartCostsNoMore` | contracts/leaseflow_contracts/src/proration.rs:37-53 | a later start in the same month never costs more |
| `LeaseMath.TimestampRoundTrip` | crates/leaseflow_math/src/lib.rs:177-228 | a date survives the trip through a timestamp exactly from 1970 on |
| `LeaseMath.BillingDateExact` | crates/leaseflow_math/src/lib.rs:249-262 | the n-th billing date is n months on, on the inception's day or the last day of a shorter month; there is none only on overflow |
| `LeaseMath.BillingDatesIncrease` | crates/leaseflow_math/src/lib.rs:249-262 | billing dates strictly increase |
| `LeaseMath.FindYear` | crates/leaseflow_math/src/lib.rs:15-39 | the estimate and its two loops end in a year and day of year that count back to the day, less one if the estimated year is a leap year |
| `LeaseMath.FindMonth` | crates/leaseflow_math/src/lib.rs:41-55 | the table loop finds the civil month and day of a day of the year |
| `LeaseMath.SecondsInMonth` | crates/leaseflow_math/src/lib.rs:11-59 | the result is the month length of the date so found |
| `LeaseMath.SecondsInMonthExact` | crates/leaseflow_math/src/lib.rs:11-59 | it is the timestamp's own month length exactly outside first days of months, January and August excepted, in estimated leap years |
| `LeaseMath.FebruaryMisread` | crates/leaseflow_math/src/lib.rs:11-59 | 1 February 2024 is read as 31 January |
| `DustAccounting.SplitShares` | contracts/leaseflow_contracts/src/dust_accounting.rs:53-90 | the loop fails exactly when a product overflows, and otherwise hands out the total in non-negative shares, floors for all but the last signer |
| `DustAccounting.SplitExact` | contracts/leaseflow_contracts/src/dust_accounting.rs:36-113 | a split adds a zero entry for the lease and the signers' dust, keeps the total, and answers each illegal request with its error |
| `DustAccounting.SettleExact` | contracts/leaseflow_contracts/src/dust_accounting.rs:116-157 | a legal settlement books what it leaves over under its lease and in the total |
| `DustAccounting.RecoverExact` | contracts/leaseflow_contracts/src/dust_accounting.rs:160-194 | a recovery lowers or drops the lease's first entry and no other, and moves the amount from the total to the recovered dust |
| `DustAccounting.LastShareBounds` | contracts/leaseflow_contracts/src/dust_accounting.rs:58-71 | the last share is at least its exact entitlement and exceeds it by under a unit per other signer |
| `DustAccounting.SignerDustExact` | contracts/leaseflow_contracts/src/dust_accounting.rs:97-105 | when the products fit, dust per signer is recorded exactly where a listing's share is below the floor of its signer's first listing; never among distinct signers |
| `DustAccounting.RecordedDust` | contracts/leaseflow_contracts/src/dust_accounting.rs:97-105 | each record of signer dust is a listing's signer with what its share is short |
| `DustAccounting.DuplicateSignerDust` | contracts/leaseflow_contracts/src/dust_accounting.rs:97-105 | a signer listed twice: dust is recorded where the split leaves none |
| `DustAccounting.StepKeepsBalance` | contracts/leaseflow_contracts/src/dust_accounting.rs:36-194 | a call keeps the ledger balanced exactly when it is not an overflowing recovery, and then remaining and recovered dust grow by what the request leaves over |
| `DustAccounting.RunAccounted` | contracts/leaseflow_contracts/src/dust_accounting.rs:36-194 | over every run, balanced or not, entries plus recovered dust are everything requested to be booked, and the total is short of the entries by what overflowing recoveries lost |
| `DustAccounting.RunConservesDust` | contracts/leaseflow_contracts/src/dust_accounting.rs:36-194 | a run leaves a balanced ledger balanced exactly when no step is an overflowing recovery, and then remaining plus recovered is all dust requested to be booked |
| `DustAccounting.OverflowingRecovery` | contracts/leaseflow_contracts/src/dust_accounting.rs:160-194 | three calls on a new ledger reach a state that a failing recovery unbalances |
| `DustAccounting.DustBook.constructor` | contracts/leaseflow_contracts/src/dust_accounting.rs:25-33 | a new record is balanced |
| `DustAccounting.DustBook.MultiSignerSplit` | contracts/leaseflow_contracts/src/dust_accounting.rs:36-113 | the split returns an exact apportionment, keeps the ledger balanced, and records signer dust as its step says, errors included; none among distinct signers |
| `DustAccounting.DustBook.TrackSigners` | contracts/leaseflow_contracts/src/dust_accounting.rs:97-105 | the second pass records every positive difference up to the first product that overflows |
| `DustAccounting.DustBook.PartialSettlement` | contracts/leaseflow_contracts/src/dust_accounting.rs:116-157 | the settlement books what it leaves over and keeps the ledger balanced |
| `DustAccounting.DustBook.RecoverDust` | contracts/leaseflow_contracts/src/dust_accounting.rs:160-194 | a recovery takes from the lease's first entry, also where it fails half way; the ledger stays balanced, and dust is conserved, exactly when the running total does not overflow |
| `SubleaseBurn.TokenManager.MintDerived` | contracts/leaseflow_contracts/src/derived_access_token.rs:148-238 | minting in place has the effect of its step, and under a new id keeps the forest and every token in it |
| `SubleaseBurn.TokenManager.TransferDerived` | contracts/leaseflow_contracts/src/derived_access_token.rs:276-324 | a transfer changes holder and count of a valid, transferable token only, and keeps the forest |
| `SubleaseBurn.TokenManager.BurnInternal` | contracts/leaseflow_contracts/src/derived_access_token.rs:519-551 | the recursion ends, revokes exactly the subtree, and returns its size and deepest level |
| `SubleaseBurn.TokenManager.BurnHierarchy` | contracts/leaseflow_contracts/src/derived_access_token.rs:241-273 | in every forest the recursion over child lists is the burn by parent pointers: it revokes exactly the subtree, returns its size and deepest level, and keeps the forest |
| `SubleaseBurn.MintExact` | contracts/leaseflow_contracts/src/derived_access_token.rs:148-238 | every field of the token that a mint adds, its expiration the earlier of the one asked for and its parent's; nothing else changes but its parent's list |
| `SubleaseBurn.MintDecided` | contracts/leaseflow_contracts/src/derived_access_token.rs:148-238 | which parent and request a mint accepts, and its error for the others |
| `SubleaseBurn.TransferExact` | contracts/leaseflow_contracts/src/derived_access_token.rs:276-324 | only the holder hands over a valid, transferable token; nothing but holder and count changes |
| `SubleaseBurn.BurnExact` | contracts/leaseflow_contracts/src/derived_access_token.rs:241-273 | a burn marks exactly what descends from its root, with time and reason |
| `SubleaseBurn.RunKeepsForest` | contracts/leaseflow_contracts/src/derived_access_token.rs:148-551 | every run keeps a forest: depth below parent's by one and at most 10, child lists and parents mirrored, rights narrowing downward |
| `SubleaseBurn.ValidityFlowsUp` | contracts/leaseflow_contracts/src/derived_access_token.rs:396-401 | a valid token implies that every derived token above it is valid |
| `SubleaseBurn.BurnedForGood` | contracts/leaseflow_contracts/src/derived_access_token.rs:241-273 | after a burn no later run has a valid token below its root |
| `SubleaseBurn.RevokedExactly` | contracts/leaseflow_contracts/src/derived_access_token.rs:148-551 | after any run a token is revoked exactly if it was before or the run asked to burn an ancestor's hierarchy or its own; its term never changes |
| `SubleaseBurn.RevokedRootKeepsSubleases` | contracts/leaseflow_contracts/src/derived_access_token.rs:241-273 | revoking a root lessee token changes no sub-lease, its hierarchy cannot be burned from the root, and sub-leases stay valid to the end of their terms unless burned from a derived token |
| `SubleaseBurn.SubleaseOutlivesRoot` | contracts/leaseflow_contracts/src/derived_access_token.rs:148-273 | a sub-lease minted under a root that is then revoked: still valid, and out of reach of a burn from the root |
| `SubleaseBurn.DerivedIdClash` | contracts/leaseflow_contracts/src/derived_access_token.rs:422-425 | exactly when two derived ids coincide |
| `SubleaseForest.AncestorUnique` | contracts/leaseflow_contracts/src/derived_access_token.rs:30-48 | a token has one ancestor per level |
| `SubleaseForest.BelowAll` | contracts/leaseflow_contracts/src/derived_access_token.rs:519-551 | the subtree by parent pointers is the root and what lies below its listed children |
| `LessorNft.NftContract.MintToken` | contracts/leaseflow_contracts/src/lessor_rights_nft.rs:201-244 | minting in place has the effect of its step, locks the token and keeps the store consistent |
| `LessorNft.NftContract.TransferToken` | contracts/leaseflow_contracts/src/lessor_rights_nft.rs:247-306 | the same for a transfer, which returns the proration |
| `LessorNft.NftContract.SetLock` | contracts/leaseflow_contracts/src/lessor_rights_nft.rs:375-407 | the same for setting a lock |
| `LessorNft.NftContract.Release` | contracts/leaseflow_contracts/src/lessor_rights_nft.rs:410-420 | the same for releasing one |
| `LessorNft.MintDecided` | contracts/leaseflow_contracts/src/lessor_rights_nft.rs:201-244 | a mint is decided by the lease's state and by whether it has a token, with the error for every other request |
| `LessorNft.MintExact` | contracts/leaseflow_contracts/src/lessor_rights_nft.rs:201-244 | an accepted mint adds one token, every field from the lease, held by the lessor, and locks it |
| `LessorNft.TransferExact` | contracts/leaseflow_contracts/src/lessor_rights_nft.rs:247-306 | only the holder transfers, and only without a lock; the record handed over, and the rent of thirty days paid for the time elapsed, rounded toward zero |
| `LessorNft.LockExact` | contracts/leaseflow_contracts/src/lessor_rights_nft.rs:375-420 | a lock is set for a tokenized lease only, over any lock it has, and released with nothing else changed |
| `LessorNft.MintedTokenLocked` | contracts/leaseflow_contracts/src/lessor_rights_nft.rs:201-267 | after a mint every transfer by the holder fails for the lock, in every later run that does not release it |
| `LessorNft.RunKeepsStore` | contracts/leaseflow_contracts/src/lessor_rights_nft.rs:201-652 | after any run token and lease name each other, and a token stands once in its holder's list and in no other |
| `LessorNft.MintKeepsStore` | contracts/leaseflow_contracts/src/lessor_rights_nft.rs:201-244 | a minted id is new |
| `LessorNft.OneTokenPerLease` | contracts/leaseflow_contracts/src/lessor_rights_nft.rs:215-218 | a lease has at most one token |
| `LessorNft.LockedTokenFrozen` | contracts/leaseflow_contracts/src/lessor_rights_nft.rs:264-267 | until its lock is released a token's record does not change, over any run |
| `LessorNft.YieldOverRun` | contracts/leaseflow_contracts/src/lessor_rights_nft.rs:541-621 | for any rent and any order of times, what n transfers pay out is the rent for all the time they prorate, short of it toward zero by fewer than n units; that time is the advance of the accrual clock plus all that it was set back |
| `LessorNft.SetBackExactly` | contracts/leaseflow_contracts/src/lessor_rights_nft.rs:541-621 | the time prorated is the interval itself exactly when no transfer happens before the accrual clock |
| `LessorNft.EarlyTransferPaid` | contracts/leaseflow_contracts/src/lessor_rights_nft.rs:541-621 | from an empty store: transfers before the lease starts pay for time before its start |
| `LesseeTokens.AccessTokens.Put` | contracts/leaseflow_contracts/src/lessee_access_token.rs:538-577 | storing writes token, mapping and both lists, and aborts for an expired token; a token stored again in its place keeps the tables consistent |
| `LesseeTokens.AccessTokens.MintToken` | contracts/leaseflow_contracts/src/lessee_access_token.rs:221-286 | minting in place has the effect of its step and keeps the store consistent |
| `LesseeTokens.AccessTokens.TransferToken` | contracts/leaseflow_contracts/src/lessee_access_token.rs:343-391 | the same for a transfer |
| `LesseeTokens.AccessTokens.RevokeToken` | contracts/leaseflow_contracts/src/lessee_access_token.rs:394-432 | the same for a revocation |
| `LesseeTokens.AccessTokens.RenewToken` | contracts/leaseflow_contracts/src/lessee_access_token.rs:435-471 | the same for a renewal |
| `LesseeTokens.AccessTokens.VerifyToken` | contracts/leaseflow_contracts/src/lessee_access_token.rs:289-340 | verification only counts itself, and its response describes the token: if valid now, valid for exactly the remaining time |
| `LesseeTokens.AccessTokens.HandleStateChange` | contracts/leaseflow_contracts/src/lessee_access_token.rs:508-528 | termination, expiry and dispute of a lease revoke its token |
| `LesseeTokens.MintExact` | contracts/leaseflow_contracts/src/lessee_access_token.rs:221-286 | an active lease with its deposit held gets one token, for its tenant and to its end, if that has not passed |
| `LesseeTokens.TransferDecided` | contracts/leaseflow_contracts/src/lessee_access_token.rs:343-391 | only the lessee hands over a valid, transferable token, and the error for every other request |
| `LesseeTokens.TransferExact` | contracts/leaseflow_contracts/src/lessee_access_token.rs:343-391 | an accepted transfer changes the token's lessee and count and moves it from one list to the other, and no more |
| `LesseeTokens.RevokeExact` | contracts/leaseflow_contracts/src/lessee_access_token.rs:394-432 | a revocation marks the lease's unexpired token with time and reason |
| `LesseeTokens.RenewExact` | contracts/leaseflow_contracts/src/lessee_access_token.rs:435-471 | a renewal gives an unrevoked token a new end that has not passed |
| `LesseeTokens.StateChangeExact` | contracts/leaseflow_contracts/src/lessee_access_token.rs:508-528 | the end of a lease revokes with the reason of its kind; other changes do nothing |
| `LesseeTokens.VerificationExact` | contracts/leaseflow_contracts/src/lessee_access_token.rs:289-340 | verifying changes a token's statistics only |
| `LesseeTokens.RevokeKeepsStore` | contracts/leaseflow_contracts/src/lessee_access_token.rs:394-432 | a revocation is accepted exactly for a token that has not expired |
| `LesseeTokens.RunKeepsStore` | contracts/leaseflow_contracts/src/lessee_access_token.rs:221-660 | after any run a token is in a lessee's list exactly when that lessee owns it, and in an asset's list exactly when it opens that asset |
| `LesseeTokens.RevokedForGood` | contracts/leaseflow_contracts/src/lessee_access_token.rs:394-471 | once a lease's token is revoked no later run gives the lease a valid token |
| `LesseeTokens.RevivalExactly` | contracts/leaseflow_contracts/src/lessee_access_token.rs:394-528 | a lease that is terminated, expires or is disputed can hold, from then on, a token valid then or later exactly when its token had expired by then and was not revoked before |
| `LesseeTokens.TerminatedTokenRevived` | contracts/leaseflow_contracts/src/lessee_access_token.rs:394-528 | from an empty store: a token expires, the revocation at termination aborts, and a renewal makes it valid again |
| `ContinuousBilling.ProcessExact` | contracts/leaseflow_contracts/src/continuous_billing_module.rs:352-453 | an accepted cycle bills the window that is due, begun, and beginning by the lease's end |
| `ContinuousBilling.RegisterExact` | contracts/leaseflow_contracts/src/continuous_billing_module.rs:269-349 | registration is open unless billing is off or paused, and starts the lease anew with nothing billed |
| `ContinuousBilling.CycleDecided` | contracts/leaseflow_contracts/src/continuous_billing_module.rs:352-453 | a cycle is accepted exactly when the lease is billable and its window has begun by now and by its end, and what it then records and charges |
| `ContinuousBilling.TerminateExact` | contracts/leaseflow_contracts/src/continuous_billing_module.rs:782-812 | only lessor and admin terminate, with the guard free; status and billing go off, terms and amounts stay |
| `ContinuousBilling.PauseExact` | contracts/leaseflow_contracts/src/continuous_billing_module.rs:837-872 | only the admin pauses and resumes |
| `ContinuousBilling.WindowsTile` | contracts/leaseflow_contracts/src/continuous_billing_module.rs:352-433 | with a positive start, windows follow each other without gap or overlap however late they are processed |
| `ContinuousBilling.CycleCountBound` | contracts/leaseflow_contracts/src/continuous_billing_module.rs:352-433 | at most (end - start) / frequency + 1 cycles are ever accepted |
| `ContinuousBilling.ZeroStartRepeats` | contracts/leaseflow_contracts/src/continuous_billing_module.rs:375-380 | with a start of zero every cycle bills the first window |
| `ContinuousBilling.ZeroStartAccepts` | contracts/leaseflow_contracts/src/continuous_billing_module.rs:352-453 | n cycles at one moment are all accepted, for every n the counters can take, and each is charged in full |
| `ContinuousBilling.ZeroStartUnbounded` | contracts/leaseflow_contracts/src/continuous_billing_module.rs:352-453 | with a start of zero some run bills n cycles exactly when the counters can take n |
| `ContinuousBilling.TilingExact` | contracts/leaseflow_contracts/src/continuous_billing_module.rs:269-453 | for a lease as registered, windows tile over every run exactly when its start is positive or the counters have no room for a second cycle |
| `ContinuousBilling.CountExact` | contracts/leaseflow_contracts/src/continuous_billing_module.rs:269-453 | the bound on the number of cycles holds over every run exactly when the start is positive or the counters have no room to exceed it |
| `ContinuousBilling.RegistrationExact` | contracts/leaseflow_contracts/src/continuous_billing_module.rs:269-453 | a lease registered with a positive period and room for two cycles is billed without gap, overlap or repetition over every run exactly if its start is positive |
| `ContinuousBilling.ChainedExact` | contracts/leaseflow_contracts/src/continuous_billing_module.rs:375-431 | windows each begun where the one before ends are a tiling, and the next one is due after all their periods |
| `ContinuousBilling.TerminatedBillsNothing` | contracts/leaseflow_contracts/src/continuous_billing_module.rs:782-812 | a terminated lease is never billed again |
| `ContinuousBilling.TerminationStops` | contracts/leaseflow_contracts/src/continuous_billing_module.rs:782-812 | after an accepted termination no later run without re-registration bills the lease or changes what it owes, and a cycle is answered with LeaseNotActive |
| `ContinuousBilling.RecordKept` | contracts/leaseflow_contracts/src/continuous_billing_module.rs:400-427 | a stored cycle survives a run exactly until a cycle is accepted under its ledger sequence number |
| `BillingCharges.OwedOverRun` | contracts/leaseflow_contracts/src/continuous_billing_module.rs:388-432 | over any run the amount owed grows by the rate times all the time charged, or by the flat rent per cycle |
| `BillingCharges.LengthExact` | contracts/leaseflow_contracts/src/continuous_billing_module.rs:388-398 | the total time charged is the number of seconds covered plus the overlaps of neighbouring charges |
| `BillingCharges.ChargedOverRun` | contracts/leaseflow_contracts/src/continuous_billing_module.rs:375-432 | a per-second lease is charged once for each second covered exactly when no cycle but the last is processed after its window's end, and for exactly the windows billed when each is processed at that end; otherwise overlaps are charged twice |
| `BillingCharges.LateCycles` | contracts/leaseflow_contracts/src/continuous_billing_module.rs:352-453 | a registered lease and two late cycles in one ledger: 20 is owed for 15 seconds, and one record is left |
| `ContinuousBilling.BillingModule.constructor` | contracts/leaseflow_contracts/src/continuous_billing_module.rs:209-266 | a new module has no lease and its guard is down |
| `ContinuousBilling.BillingModule.RegisterLease` | contracts/leaseflow_contracts/src/continuous_billing_module.rs:269-349 | registration in place has the effect of its step and starts a new schedule; the guard stays down and every lease stays billed by its schedule |
| `ContinuousBilling.BillingModule.ProcessCycle` | contracts/leaseflow_contracts/src/continuous_billing_module.rs:352-453 | an accepted cycle has the effect of its step and appends the window due, so the windows billed since registration still tile; a refused one changes nothing |
| `ContinuousBilling.BillingModule.TerminateLease` | contracts/leaseflow_contracts/src/continuous_billing_module.rs:782-812 | termination in place has the effect of its step, switches the lease off and leaves every schedule and the guard as they were |
| `ContinuousBilling.BillingModule.SetPause` | contracts/leaseflow_contracts/src/continuous_billing_module.rs:837-872 | only the admin can pause; schedules and guard are untouched |

## Left out

- `LeaseMath.SecondsInMonth`: requires the estimated year to fit 32 bits; the wrapping cast for timestamps beyond year 2147483647 is not modelled.
- `OraclePricing.PriceDrift`: assumes positive prices, which acceptance alone does not give (see `OraclePricing.AcceptedPriceSign`).
- `calculate_prorated_rent`, `calculate_termination_refund`: their results are parameters of creation and termination; `calculate_deposit_split` and `calculate_total_cost` are one-line facts.
- Token transfers, authorisation, signatures, events, time-to-live extension (but for its abort) and hashing: calls into the platform.
- Derived-token zone moves, hierarchy metrics and the lease, sublessee and zone lists, access-token asset types, revocation history and the five-minute verification cache: logs and payload that nothing reads back.
- The 32-bit counters of the recursive burn: the count is the size of a subtree of the table.
- `verify_dust_accounting`: it compares recovered dust with remaining dust, so it does not always pass.
- The modification table and operation ids of the fuzzer, and its yield, dispute, settlement, release and slash arms, which repeat the tracker's.
- Payments, authorisations, configuration changes and treasury distribution of the billing module, and with them the nested calls, during token transfers, that its reentrancy guard is for.
- A second call of `initialize` of the lifecycle contract, which resets all its data (contracts/leaseflow/src/lib.rs:204-226): runs begin with the first call and exclude later ones.
- `escrow_vault.rs`, `division_safety.rs`, `collateral_health_monitor.rs`, the payment router, DEX and IoT integration, oracle governance, identity and proposal modules: single-branch facts or placeholders.
