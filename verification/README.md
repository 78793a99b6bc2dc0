# A model of the gateway's money, coordination and scheduling cores

The repository is the backend of an AI gateway. This project models, in Dafny, the parts of it whose
correctness does not show in any single function: the optimistic lock on tenant quotas, the billing
ledger with its idempotency keys, the pre-deduct-then-settle arithmetic on Redis, the version-tagged
cache, the distributed lock, the cron scheduler, and five smaller state machines. Each module follows
one component:

| module | component |
|---|---|
| `Calendar`, `CronSchedule`, `CronParser`, `CronRoundTrip`, `CronSyntax` | the cron parser, the grammar of what it accepts, and the minute-by-minute search, over a full Gregorian calendar |
| `Quota`, `QuotaConcurrency` | the tenant quota row, its repository object, and any number of workers racing on it |
| `Costs`, `RedisQuota`, `Settlement` | estimates and rounded costs, the Redis hash and its script, and whole runs of pre-deductions and settlements |
| `Ledger`, `LedgerCalls`, `CreditProtocol`, `ReversalRuns` | the transaction table one call at a time, what each call does with its arguments, and recharges and reversals that may crash between commits |
| `VersionedCache`, `DistributedLock` | two small protocols whose safety depends on the order of steps |
| `Bandit`, `Dispatcher`, `Pagination`, `Conversation`, `ProviderModels` | the failure counter, tasks waiting for a commit, keyset pages, turn indexes, batch upserts |

What the source changes in place is a class here, with methods proved against a specification function;
what is promised is then proved of that function over every run, every interleaving or every input.
A concurrent protocol is a state machine: `Next` performs one round trip of one participant, `Run` any
list of such steps. Amounts of money are exact reals, days are calendar ordinals, clocks and network
failures are arguments. `Common` holds `Option` and `Result`.

## What the proofs found

Most promises hold as stated. These do not; each has its exact condition, or a run that shows the failure, or both:

- `reverse` accepts a deduction that is still pending and pays out its estimate (`Ledger.PendingReversalMints`). A
  reversal gives back what was taken exactly when the row is COMMITTED and was not merely recorded, or is zero
  (`Ledger.ReversalUndoesIffCommitted`), and a run mints money exactly when one of its reversals meets another row
  (`Ledger.MintsIffReversesUncharged`).
- Two sessions that reverse one deduction under different ids can both pay it back: `CreditProtocol.PaidOnceIffOneId`.
  Sessions that follow each other pay once (`ReversalRuns.SerialReversalsPayOnce`), unless one crashes between its
  credit and its last commit (`ReversalRuns.CrashPaysTwice`).
- Changing a limit does not bump the version, so a check that is under way does not see it. Each of the four limits
  can be overrun (`QuotaConcurrency.TighteningIsOverrun`); a change is respected in every continuation exactly when it
  covers the present usage and every request already checked (`QuotaConcurrency.LimitChangeRespectedIff`).
- A row created by the deduction that uses it has no reset date, so the next call forgets that usage: exactly then
  (`Quota.UsageKeptIff`). From the second request on the script and the database path therefore count differently
  (`RedisQuota.FirstRequestDiverges`); `RedisQuota.ScriptAgreesWithDatabase` says exactly when they accept the same
  requests and when they leave the same hash. A request without a positive amount skips the balance check of the
  database path but not that of the script.
- A top-up overwrites the Redis hash with a row that never saw the pre-deductions: `Settlement.TopUpForgetsCharges`.
- A write-through fill of the cache is stale exactly when another write commits and bumps between its refresh and its
  bump (`VersionedCache.FillFreshIffUndisturbed`), and that can always happen (`VersionedCache.WriterOvertakes`).
- A read whose version look-up failed is handed whatever is stored: the wrapper with its tag instead of the quota, or
  an outdated entry (`VersionedCache.UntaggedOutlivesWrite`). It is safe exactly when the look-up answered
  (`VersionedCache.ReadSafeIffVersioned`).
- Without Redis every lock attempt succeeds: `DistributedLock.DegradedBreaksExclusion`. An extension whose answer was
  lost lets another object in before the old deadline exactly when it was shorter than what was left
  (`DistributedLock.LostExtensionDeadline`). A SET whose answer was lost blocks the object's own later attempts
  (`DistributedLock.LostSetBlocksItself`).
- A cron expression that admits no date but 29 February is accepted, yet raises from some starts
  (`CronSchedule.RunsFromEveryStart`). So do expressions that restrict the weekday: nine consecutive admitted days of
  one month are always enough (`CronSchedule.NineDaysNeverRaise`), eight are not (`CronSchedule.EightDaysCanRaise`).
- A page size of 0 never visits anything: `Pagination.Traverse`.
- An excess of one micro-unit is never collected. So a request that keeps to its token limit never lowers the
  balance when it is settled, which is more than the one micro-unit of slack that rounding alone would allow:
  `Settlement.SettlementNeverLowers`.
- `commit_pending_transaction` names a status FAILED that the enumeration does not have; the model returns an
  error there and changes nothing (`Ledger.BillingRepository.CommitPendingCall`).

## Model

| member | source | states |
|---|---|---|
| `Calendar.DateOfOrdinal` | app/services/monitor_cron.py:20-27 | reading a date back from its ordinal gives the same date, leap years and century rule included |
| `Calendar.OrdinalOfDate` | app/services/monitor_cron.py:20-27 | every ordinal from 1 on has a valid date, and that date has this ordinal |
| `Calendar.OrdinalInjective` | app/services/monitor_cron.py:20-27 | two calendar dates with one ordinal are the same date |
| `Calendar.WeekdayCycle` | app/services/monitor_cron.py:20-31 | weekdays follow each other in a cycle of seven, with Monday as 0, anchored at a known Monday |
| `Calendar.SameMonth` | app/repositories/quota_repository.py:357-362 | a day not after today has today's "%Y-%m" exactly when it is not before the first of the month |
| `Calendar.FirstOfMonthIsFirst` | app/repositories/quota_repository.py:357-361 | `today.replace(day=1)` is the first day of the month of today |
| `CronSchedule.NextRunAfter` | app/services/monitor_cron.py:117-130 | the least matching minute strictly after the argument, seconds and microseconds included, at most 366 days and a minute later; the exception exactly when no minute of the window matches |
| `CronSchedule.NextRunUnique` | app/services/monitor_cron.py:117-130 | the search has one possible answer, so its specification is complete |
| `CronSchedule.IterationIncreases` | app/services/monitor_cron.py:117-130 | calling the search on its own result again and again gives strictly increasing minutes |
| `CronSchedule.IterationEnumeratesMatches` | app/services/monitor_cron.py:117-130 | up to the last run returned, a minute matches if and only if it was returned: none skipped, none repeated |
| `CronSchedule.EveryMatchIsReached` | app/services/monitor_cron.py:117-130 | a schedule that never raises reaches every future match after finitely many runs |
| `CronSchedule.MatchesDay` | app/services/monitor_cron.py:20-27 | a minute given as day, hour and minute is judged on that day, hour and minute |
| `CronSchedule.MatchesFields` | app/services/monitor_cron.py:20-27 | the minute h:m of any calendar date matches if and only if m, h, the day, the month and the weekday are each in their own field |
| `CronSchedule.DailyMatches` | app/services/monitor_cron.py:20-27 | an expression for one minute of every day matches exactly the minutes at that time of day |
| `CronSchedule.DailyRunsNext` | app/services/monitor_cron.py:117-130 | it runs at that time on the day of the start if it is still to come, otherwise on the next day |
| `CronSchedule.MatchInWindow` | app/services/monitor_cron.py:122-128 | with all weekdays and a date of a common year admitted, the 366-day window from any start holds a match |
| `CronSchedule.OrdinaryExpressionNeverRaises` | app/services/monitor_cron.py:117-130 | for such an expression the search never raises, from any start |
| `CronSchedule.NoCommonDateRaises` | app/services/monitor_cron.py:123-130 | without a common-year date the search raises from 1 March 2001, whose window has no 29 February |
| `CronSchedule.RunsFromEveryStart` | app/services/monitor_cron.py:117-130 | with all weekdays admitted, the search succeeds from every start if and only if some admitted date exists in common years |
| `CronSchedule.NineDaysNeverRaise` | app/services/monitor_cron.py:117-130 | whatever weekdays are admitted, nine consecutive admitted days of one month make the search succeed from every start |
| `CronSchedule.EightDaysRaise` | app/services/monitor_cron.py:122-130 | Tuesdays among 1 to 8 January: the search raises after 2 January 2024 |
| `CronSchedule.EightDaysCanRaise` | app/services/monitor_cron.py:122-130 | so eight consecutive days do not guarantee a run from every start |
| `CronParser.ParseField` | app/services/monitor_cron.py:80-84 | the accumulating loop returns the union of the parts, or the error of the first bad part |
| `CronParser.TokenIsProgression` | app/services/monitor_cron.py:38-77 | an accepted token is exactly {v : start <= v <= end, (v - start) mod step = 0}, inside the bounds and containing start |
| `CronParser.FieldIsUnion` | app/services/monitor_cron.py:80-84 | a field is accepted if and only if all its parts are, and is then exactly their union |
| `CronParser.FieldInBounds` | app/services/monitor_cron.py:74-84 | an accepted field is not empty and stays inside its bounds |
| `CronParser.WeekdayShift` | app/services/monitor_cron.py:30-35 | weekdays map onto 0..6, shifted by one day, with 0 and 7 both Sunday |
| `CronParser.ParsedIsWellFormed` | app/services/monitor_cron.py:87-106 | every accepted expression has five non-empty fields in range, for all texts |
| `CronRoundTrip.ParseDecimal` | app/services/monitor_cron.py:48-72 | reading the decimal of any natural number gives that number |
| `CronRoundTrip.ParsePrintedToken` | app/services/monitor_cron.py:38-77 | a printed token is refused for a zero step, then for its bounds, and otherwise read as exactly what it denotes |
| `CronRoundTrip.ParsePrintedField` | app/services/monitor_cron.py:80-84 | a printed comma list of tokens is read as the union of what they denote |
| `CronRoundTrip.ParsePrintedValues` | app/services/monitor_cron.py:38-84 | printing any non-empty in-range list of values and parsing it gives the same set back |
| `CronRoundTrip.ParsePrintedExpression` | app/services/monitor_cron.py:87-106 | every valid five-field expression, printed, is accepted and read back field by field, weekdays shifted |
| `CronRoundTrip.PrintedExpressionNeverRaises` | app/services/monitor_cron.py:87-130 | from text to schedule: a printed expression with a weekday star and a common-year date runs from every start |
| `CronRoundTrip.DailyTextIsDaily` | app/services/monitor_cron.py:87-106 | "m h * * *" is accepted and admits exactly minute m of hour h, every day |
| `CronRoundTrip.DailyTextRuns` | app/services/monitor_cron.py:117-130 | from text to instant: "m h * * *" returns the next instant at h:m |
| `CronSyntax.SpaceCharacters` | app/services/monitor_cron.py:39-39 | which ASCII characters count as surrounding space |
| `CronSyntax.StripIs` | app/services/monitor_cron.py:39-39 | stripping takes off the surrounding space and nothing else |
| `CronSyntax.ParseIntIff` | app/services/monitor_cron.py:49-72 | a number is read if and only if the text is space, an optional sign, digits with single inner underscores, space; with that value |
| `CronSyntax.NumeralIsDecimal` | app/services/monitor_cron.py:49-72 | the value of a numeral is the number whose decimal it writes, leading zeros and underscores aside |
| `CronSyntax.TokenAcceptedIff` | app/services/monitor_cron.py:38-77 | a token is accepted if and only if its text is a star, a number or two numbers around a minus sign, optionally with a slash and a positive number, within the bounds; and is then read as that progression |
| `CronSyntax.ForeignTokenRefused` | app/services/monitor_cron.py:48-75 | a token with any character other than digits, space and _ + - * / is refused |
| `CronSyntax.SplitJoins` | app/services/monitor_cron.py:82-82 | splitting at commas is undone by joining, and no part holds a comma |
| `CronSyntax.ForeignExpressionRefused` | app/services/monitor_cron.py:109-114 | an expression with any character other than those and the comma is refused |
| `CronSyntax.ExpressionAcceptedIff` | app/services/monitor_cron.py:92-106 | fields joined by blanks are refused for their number unless there are five, and accepted if and only if every comma part of each is a token within the bounds of its field |
| `Quota.AcceptedIffCovered` | app/repositories/quota_repository.py:181-228 | on a row within its bounds, the four checks pass if and only if the row after the deduction is within them too |
| `Quota.RefusalExplains` | app/repositories/quota_repository.py:181-209 | a refusal names the first bound, in the order balance, day, month, tokens, that the request does not fit into, what was asked and what was left |
| `Quota.FirstRequest` | app/repositories/quota_repository.py:69-84 | the first request of a tenant: granted if and only if it needs no money or may go negative, and fits into 10000 a day and 300000 a month; the row it leaves, column by column; otherwise nothing stored and the shortage |
| `Quota.NewRowIsEmpty` | app/repositories/quota_repository.py:69-78 | a new account has no money, no credit, the default quotas, no usage and version 1 |
| `Quota.LimitsReplaceTheirColumn` | app/repositories/quota_repository.py:314-331 | each given limit replaces its own column and nothing else of the row |
| `Quota.LimitsCompose` | app/repositories/quota_repository.py:314-331 | several limits given together do what they do one after another |
| `Quota.ResetClearsStale` | app/repositories/quota_repository.py:343-384 | a reset zeroes exactly the stale counters, is idempotent, and touches nothing else, the version included |
| `Quota.ResetDates` | app/repositories/quota_repository.py:351-362 | a reset dates the day by today and the month by its first day, and keeps dates that are not stale |
| `Quota.FirstUsageForgotten` | app/repositories/quota_repository.py:69-90 | usage booked by the call that creates the row is reset to zero by the next call on the same day |
| `Quota.UsageKeptIff` | app/repositories/quota_repository.py:64-90 | the next call of the day sees the usage if and only if the row existed before, or nothing was used |
| `Quota.WritesAddUp` | app/repositories/quota_repository.py:211-228 | over any list of writes, the version counts top-ups and deductions and the balance moves by their sum |
| `Quota.RoundsAddUp` | app/repositories/quota_repository.py:211-247 | the same over any rounds of interference |
| `Quota.NothingOverwritten` | app/repositories/quota_repository.py:211-247 | however many retries it took, the deduction lands on top of everything the other sessions wrote |
| `Quota.QuotaRepository.constructor` | app/repositories/quota_repository.py:42-45 | the table starts empty |
| `Quota.QuotaRepository.GetOrCreate` | app/repositories/quota_repository.py:47-90 | returns and stores the reset row, or a default row that is not reset; other tenants unchanged |
| `Quota.QuotaRepository.AddBalance` | app/repositories/quota_repository.py:268-296 | credits the loaded row and bumps its version; other tenants unchanged |
| `Quota.QuotaRepository.UpdateLimits` | app/repositories/quota_repository.py:298-341 | replaces exactly the given limits, without bumping the version |
| `Quota.QuotaRepository.CheckAndDeduct` | app/repositories/quota_repository.py:147-259 | for any interference between reads and swaps: the refusal or the new row of the last attempt, other tenants unchanged, and attempts bounded by the others' version bumps; for a tenant without a row, the new row, the refusal, or the unique violation when another session inserts first |
| `Quota.CreatedAlone` | app/repositories/quota_repository.py:69-84 | without a rival, the call that creates the row answers as the uncontended call does |
| `Quota.QuotaRepository.Create` | app/repositories/quota_repository.py:69-84 | the branch without a row: created and deducted, refused with nothing stored, or a unique violation that leaves the other session's row |
| `Quota.QuotaRepository.Attempt` | app/repositories/quota_repository.py:179-247 | one attempt and its recursive retries leave the outcome specified for the whole sequence of attempts |
| `QuotaConcurrency.NothingIsLost` | app/repositories/quota_repository.py:211-247 | in every interleaving: balance = opening + credits - successful deductions, version counts the successes, each finished worker deducted exactly once and each other not at all, retries are paid for by others' successes since the first snapshot |
| `QuotaConcurrency.QuotaNeverExceeded` | app/repositories/quota_repository.py:179-247 | in every interleaving of non-negative requests with top-ups, resets and safe limit changes: used counters within quotas, token quota respected when positive, balance + credit >= 0 unless some worker may go negative |
| `QuotaConcurrency.LooseningIsSafe` | app/repositories/quota_repository.py:319-337 | limit changes that only loosen are among the safe ones, in every reachable state |
| `QuotaConcurrency.CasStaysCoveredIff` | app/repositories/quota_repository.py:211-228 | on a covered row, the compare-and-swap of a checked request keeps the bounds if and only if the request still passes the checks on that row |
| `QuotaConcurrency.UnsafeLeavesBounds` | app/repositories/quota_repository.py:298-341 | after a limit change that is not safe, the bounds are left at once or by the next compare-and-swap of a worker checked before it |
| `QuotaConcurrency.LimitChangeRespectedIff` | app/repositories/quota_repository.py:298-341 | a change of any limits keeps the bounds in every continuation if and only if it covers the present usage and every request checked on the present version |
| `QuotaConcurrency.TighteningIsOverrun` | app/repositories/quota_repository.py:211-228 | for each of the four limits a run in which lowering it is covered by the present usage and overrun by the swap that follows |
| `Costs.RoundsHalfEven` | app/services/billing_pipeline.py:72-76 | the rounding computed is the nearest integer, ties to even, and no other integer is |
| `Costs.QuantizeError` | app/services/billing_pipeline.py:72-76 | rounding to six decimals moves an amount by at most half a micro-unit |
| `Costs.EstimateIsFullUse` | app/services/billing_pipeline.py:45-54 | the estimate is the exact cost of the whole token limit as input plus the whole limit as output |
| `Costs.ComponentsNearExact` | app/services/billing_pipeline.py:57-80 | the first component is the input cost and the second the output cost, each zero without tokens or price and otherwise within half a micro-unit; the third is their sum |
| `Costs.ActualWithinEstimate` | app/services/billing_pipeline.py:45-80 | within the token limit and with non-negative prices, the twice-rounded cost is at most the estimate + 10^-6 |
| `Costs.CostNearExact` | app/services/billing_pipeline.py:57-80 | the rounded total is within 10^-6 of the exact cost |
| `Costs.BoundIsTight` | app/services/billing_pipeline.py:45-80 | prices for which the bound estimate + 10^-6 is reached |
| `RedisQuota.QuotaHash.EvalDeduct` | app/core/redis_scripts/quota_deduct.lua:10-85 | the script, field by field: its result and the new hash, unchanged on every error |
| `RedisQuota.ScriptOutcome` | app/core/redis_scripts/quota_deduct.lua:12-85 | the script accepts exactly what fits into balance and credit, day and month; the new hash column by column; a refusal names the first bound and its numbers |
| `RedisQuota.QuotaHash.AdjustBalance` | app/repositories/billing_repository.py:270-334 | the hash balance moves by the difference and the version by one, unless the difference is tiny or there is no hash |
| `RedisQuota.ScriptAgreesWithDatabase` | app/core/redis_scripts/quota_deduct.lua:10-85 | on the hash synced from any row, dated or not, the script accepts if and only if `check_and_deduct` does and neither exceptional family applies, and leaves the hash of the row the database path would have left if and only if no undated counter has been used |
| `RedisQuota.FirstRequestDiverges` | app/repositories/quota_repository.py:411-439 | the row that a first request creates: the script counts n + 1 where the database counts 1, and refuses what the database accepts when the first request used the daily quota up |
| `RedisQuota.RedisPathAgrees` | app/repositories/billing_repository.py:496-540 | a deduction through the script, copied back into the row, leaves the row of the database path if and only if no undated counter has been used |
| `Settlement.SettlementLaw` | app/services/billing_pipeline.py:131-160 | after any interleaving of pre-checks and settlements the cached balance is the opening minus what is due, up to one micro-unit per settled request |
| `Settlement.FullySettled` | app/services/billing_pipeline.py:265-301 | with all n requests settled it is the opening minus the sum of actual costs, up to n * 10^-6 |
| `Settlement.BalanceIsCharged` | app/services/billing_pipeline.py:131-160 | in every run the cached balance is exactly the opening minus what the jobs were charged |
| `Settlement.PrecheckLaw` | app/services/billing_pipeline.py:131-151 | a request is reserved and its estimate taken if and only if the hash affords it; otherwise refused with nothing changed |
| `Settlement.SettleLaw` | app/services/billing_pipeline.py:268-295 | the actual cost replaces the estimate unless they differ by a micro-unit or less, or nothing was used |
| `Settlement.VersionCountsWrites` | app/services/billing_pipeline.py:294-295 | the version of the hash counts the pre-deductions and the adjustments |
| `Settlement.SettlementNeverLowers` | app/services/billing_pipeline.py:268-295 | settling a request that kept to its token limit never lowers the balance |
| `Settlement.NeverOverdrawn` | app/services/billing_pipeline.py:131-151 | so in every interleaving of such requests balance + credit stays non-negative |
| `Settlement.TopUpForgetsCharges` | app/repositories/quota_repository.py:290-296 | the sync of a top-up raises the cached balance by the top-up plus everything charged since the last sync |
| `Settlement.RedisDeductionCollects` | app/repositories/billing_repository.py:534-540 | after any run of pre-deductions and settlements, a deduction through the script leaves the row's balance minus everything charged since the last sync minus its amount |
| `Ledger.MoneyIsConserved` | app/repositories/billing_repository.py:116-172 | over every run of calls: trace ids unique, refunds and reversed deductions one to one with equal amounts, and per tenant balance = opening + recharges + refunds - deductions that took effect |
| `Ledger.MintedExactly` | app/repositories/billing_repository.py:669-741 | the balance is explained by recharges, charges that stand, and the amounts reversed without ever having been charged |
| `Ledger.ReversalUndoesIffCommitted` | app/repositories/billing_repository.py:685-731 | after every run, a reversal gives back what was taken if and only if the row is COMMITTED and `record_transaction` did not write it, or its amount is zero |
| `Ledger.PendingReversalMints` | app/repositories/billing_repository.py:685-731 | a pending row with estimate e, reversed: the balance is e and nothing was charged |
| `Ledger.MintsIffReversesUncharged` | app/repositories/billing_repository.py:669-741 | a run pays out money never taken if and only if some call of it reverses a non-zero row that is pending or merely recorded |
| `Ledger.StatusTellsCharges` | app/repositories/billing_repository.py:94-114 | over every run, a deduction that is not reversed took effect if and only if it is COMMITTED and `record_transaction` did not write it |
| `Ledger.CarefulRunMintsNothing` | app/repositories/billing_repository.py:413-450 | over every run without such a reversal, balance = opening + recharges - the COMMITTED deductions that were not merely recorded |
| `Ledger.StatusesMoveForward` | app/repositories/billing_repository.py:116-172 | rows are never removed, statuses move only PENDING to COMMITTED to REVERSED, and amounts are fixed once committed |
| `Ledger.TraceActsOnce` | app/repositories/billing_repository.py:395-411 | in every run at most one call that carries a given trace id changes any balance, commits of pending rows and reversals included, whatever Redis keys expired, and none once the id has a row that is not pending |
| `Ledger.BillingRepository.CreatePendingCall` | app/repositories/billing_repository.py:58-114 | an existing row is returned as it is; otherwise a pending row is added and no money moves |
| `Ledger.BillingRepository.CommitPendingCall` | app/repositories/billing_repository.py:116-172 | all branches of the commit: missing, already committed, wrong status, refused, and charged |
| `Ledger.BillingRepository.RecordCall` | app/repositories/billing_repository.py:174-268 | adds a committed row without touching the balance, or answers from the existing row |
| `Ledger.BillingRepository.DeductCall` | app/repositories/billing_repository.py:336-468 | both idempotency keys, the released key after a refusal, and the charged row |
| `Ledger.BillingRepository.RechargeCall` | app/repositories/billing_repository.py:615-667 | pending row, credit and commit as one call, or the answer from the existing row |
| `Ledger.BillingRepository.ReverseCall` | app/repositories/billing_repository.py:669-741 | the checks on the original and the key, the refund row, the credit and the reversed original |
| `LedgerCalls.DeductsIffAffords` | app/repositories/billing_repository.py:542-560 | a deduction succeeds if and only if amount, day and month fit what the columns show; it then takes exactly the amount, counts one request and touches nothing else |
| `LedgerCalls.RechargeLaw` | app/repositories/billing_repository.py:615-667 | a new id: the balance rises by exactly the given amount, no other account changes, and one committed payment with that tenant, id and amount is added and returned; a used id: nothing changes and its row answers |
| `LedgerCalls.DeductLaw` | app/repositories/billing_repository.py:395-468 | a new id: charged in full and recorded if affordable, refused without a trace otherwise; a used id or key: no money moves |
| `LedgerCalls.CommitLaw` | app/repositories/billing_repository.py:132-172 | a pending row is charged with the given cost if affordable; every other row is left alone, with its answer |
| `LedgerCalls.RecordLaw` | app/repositories/billing_repository.py:225-268 | a new id: one committed deduction with the given amount and no money moved |
| `LedgerCalls.CreatePendingLaw` | app/repositories/billing_repository.py:82-114 | a new id: one pending deduction with the estimate and no money moved; a used id is answered with its row |
| `LedgerCalls.ReverseLaw` | app/repositories/billing_repository.py:680-741 | a deduction that is not reversed and a new id: its tenant gets its amount, it is marked, one refund is added; all refusals otherwise |
| `LedgerCalls.AmountsAgreed` | app/repositories/billing_repository.py:162-168 | in every run the amount of a deduction is what the calls set: its estimate, then its cost |
| `LedgerCalls.BalanceFollowsCalls` | app/repositories/billing_repository.py:615-741 | over every run, balance = opening + the arguments of the calls that acted, a reversal adding the amount agreed on for its deduction |
| `CreditProtocol.CreditedAtMostOnce` | app/repositories/billing_repository.py:628-660 | with crashes between any two commits and unlimited retries: each trace id credits at most once, exactly once if its row is COMMITTED, and the balance is the opening plus the credits |
| `CreditProtocol.CreditsPayWhatIsOwed` | app/repositories/billing_repository.py:698-735 | in every such run each credit was issued by a call with its id, for exactly the recharged amount or that of the reversed deduction |
| `CreditProtocol.OneIdPaysOnce` | app/repositories/billing_repository.py:680-735 | a deduction reversed under one id only is paid back at most once, in every run |
| `CreditProtocol.TwoIdsPayTwice` | app/repositories/billing_repository.py:680-735 | a run in which two ids pay one deduction back twice |
| `CreditProtocol.PaidOnceIffOneId` | app/repositories/billing_repository.py:680-735 | a committed deduction is paid back at most once in every run if and only if all its reversals carry one id |
| `ReversalRuns.DeductionStep` | app/repositories/billing_repository.py:729-735 | a deduction keeps its amount, and its status changes only to REVERSED, by the last commit of a session that reverses it |
| `ReversalRuns.ReversedForGood` | app/repositories/billing_repository.py:730-735 | a deduction that is REVERSED is so in every later state |
| `ReversalRuns.FinishedReversalIsFinal` | app/repositories/billing_repository.py:685-686 | once a reversal has made its last commit, the deduction is REVERSED in all later states and every session that begins later is refused, whatever its id |
| `ReversalRuns.PaidBackAtMostCleared` | app/repositories/billing_repository.py:680-735 | however a run goes on after that, the deduction is paid back at most as often as sessions had passed their checks before |
| `ReversalRuns.SerialReversalsPayOnce` | app/repositories/billing_repository.py:680-735 | sessions that follow each other, under any ids, pay back at most once, and once they have ended exactly once if the deduction is REVERSED and not at all otherwise |
| `ReversalRuns.CrashPaysTwice` | app/repositories/billing_repository.py:727-735 | a run in which a crash between credit and last commit lets a second session pay again |
| `ReversalRuns.RechargeAlone` | app/repositories/billing_repository.py:628-660 | a recharge under a new id, alone: one credit of its amount and one committed payment |
| `ReversalRuns.RetryIsAnswered` | app/repositories/billing_repository.py:629-633 | a retry finds the committed row and credits nothing; a pending row makes it end as a duplicate |
| `ReversalRuns.ReversalChecks` | app/repositories/billing_repository.py:680-696 | which reversals are refused, answered or let through, and for which amount |
| `VersionedCache.CacheService.Set` | app/core/cache.py:102-125 | stores unless Redis is down or NX meets an existing key, and says so |
| `VersionedCache.CacheService.SetWithVersion` | app/core/cache.py:233-242 | afterwards the value is found at that version and at no other; other keys unchanged |
| `VersionedCache.CacheService.GetWithVersion` | app/core/cache.py:244-253 | the unwrapped value only under the expected version; whatever is stored, wrapper included, when none is expected |
| `VersionedCache.CacheService.Delete` | app/core/cache.py:127-136 | removes exactly the key |
| `VersionedCache.CacheService.BumpVersion` | app/core/cache_invalidation.py:259-274 | increments the counter, creating it at 1; 0 and no change without Redis |
| `VersionedCache.ReadsAreFresh` | app/repositories/quota_repository.py:113-145 | in every interleaving of read-through fills, committing writers, undisturbed write-through fills, evictions and failures: an entry tagged w reflects every write whose bump gave at most w, and a read whose look-up answered, or which found no entry, returns a quota that is not older than any write that had bumped when it began |
| `VersionedCache.FillFreshIffUndisturbed` | app/repositories/bandit_repository.py:193-202 | the entry that a write-through fill stores is fresh for the next read if and only if no other write both commits and bumps between the fill's refresh and its bump |
| `VersionedCache.WriterOvertakes` | app/repositories/quota_repository.py:80-89 | any other writer at rest can overtake the fill in that way |
| `VersionedCache.ReadThroughIsFound` | app/repositories/quota_repository.py:138-143 | what a read-through fill stored is found by the next read while the version stands still |
| `VersionedCache.DeletedStaysAway` | app/repositories/quota_repository.py:448-452 | after the delete of a writer no look finds an entry under the key until somebody stores one |
| `VersionedCache.LookIsGoodIff` | app/core/cache.py:244-253 | in every reachable state a look leads to a well-formed fresh quota or to the database if and only if the version is known, or there is no entry, or the entry is untagged and not outdated; a tagged entry met without a version is returned with its wrapper |
| `VersionedCache.WrapperIsServed` | app/repositories/quota_repository.py:113-119 | a run in which a read without a version is handed the wrapper of a fill |
| `VersionedCache.UntaggedOutlivesWrite` | app/repositories/quota_repository.py:138-143 | a run in which an untagged entry, loaded before a write and stored after it, is served once the write is complete |
| `VersionedCache.ReadSafeIffVersioned` | app/repositories/quota_repository.py:113-145 | a read returns a well-formed fresh quota in every continuation if and only if its version look-up answered |
| `DistributedLock.Lock.constructor` | app/core/distributed_lock.py:29-48 | a new lock object holds nothing |
| `DistributedLock.Lock.Acquire` | app/core/distributed_lock.py:50-94 | the outcome, key and time of the retry loop; success means own value and full ttl; a live key of anybody is never replaced; without Redis it succeeds and changes nothing |
| `DistributedLock.AcquireIffFree` | app/core/distributed_lock.py:63-94 | acquire succeeds if and only if the ttl is positive and some answered attempt meets a free key, the key being what the object's own lost attempts left |
| `DistributedLock.KeyIsOriginal` | app/core/distributed_lock.py:63-94 | without lost answers that is the key that was there from the start |
| `DistributedLock.LostSetBlocksItself` | app/core/distributed_lock.py:83-94 | after a SET whose answer was lost, all attempts within its ttl fail |
| `DistributedLock.Lock.Release` | app/core/distributed_lock.py:96-139 | deletes only its own live key, and reports exactly that; the flag survives an error |
| `DistributedLock.Lock.Extend` | app/core/distributed_lock.py:141-181 | moves the expiry only of its own live key, and reports exactly that |
| `DistributedLock.MutualExclusion` | app/core/distributed_lock.py:63-94 | for any number of objects with distinct values and any interleaving with lost answers and expiry, Redis available: at most one is between a successful acquire and its release call with an unexpired lease |
| `DistributedLock.OthersUntouched` | app/core/distributed_lock.py:104-181 | release and extend, late or not, never remove, prolong or shorten another object's lock |
| `DistributedLock.ReleaseHandsOver` | app/core/distributed_lock.py:111-136 | a release in time lets the next object in and the old holder out |
| `DistributedLock.ExtensionMovesDeadline` | app/core/distributed_lock.py:159-178 | an extension in time moves the holder's deadline and the key's expiry to the same instant |
| `DistributedLock.DegradedBreaksExclusion` | app/core/distributed_lock.py:58-61 | without Redis two objects hold the lock together |
| `DistributedLock.LostExtensionDeadline` | app/core/distributed_lock.py:159-181 | after a lost answer, some continuation lets another object hold the lock before the old deadline if and only if the extension was shorter than what was left |
| `DistributedLock.KeyIsSafe` | app/core/distributed_lock.py:111-178 | in every run of the others, the key of an object is unchanged until it expires |
| `DistributedLock.LostAcquireFreesItself` | app/core/distributed_lock.py:83-94 | a SET that took effect but reported an error leaves nobody holding the lock, and frees itself after its ttl |
| `Bandit.ArmState.RecordFeedback` | app/repositories/bandit_repository.py:168-191 | the new counters and cooldown for a feedback |
| `Bandit.CounterBoundsSuffixes` | app/repositories/bandit_repository.py:168-173 | no suffix of the history has more failures minus successes than the counter |
| `Bandit.CounterIsReached` | app/repositories/bandit_repository.py:168-173 | some suffix, perhaps the empty one, has exactly that excess |
| `Bandit.CounterIsMaximalExcess` | app/repositories/bandit_repository.py:168-173 | so the counter reaches a bound if and only if some suffix does |
| `Bandit.CooldownIffSuffixReaches` | app/repositories/bandit_repository.py:185-191 | the cooldown is set if and only if the last feedback failed and some suffix has threshold more failures than successes, and runs to the deadline of that failure |
| `Bandit.CountersAddUp` | app/repositories/bandit_repository.py:168-173 | trials and successes count the history, and successes + failures <= trials |
| `Dispatcher.Scheduler.Enqueue` | app/core/transaction_celery.py:60-71 | appends the task and registers hooks exactly when the list was empty; nothing without a broker |
| `Dispatcher.Scheduler.Commit` | app/core/transaction_celery.py:115-151 | all accumulated commit hooks fire once; the waiting tasks are handed over in order, or dropped without a broker |
| `Dispatcher.Scheduler.Rollback` | app/core/transaction_celery.py:153-161 | the waiting tasks are dropped, the commit hooks stay |
| `Dispatcher.CommitHandsOver` | app/core/transaction_celery.py:115-151 | however many stale hooks fire, each waiting task is handed over once |
| `Dispatcher.HandedOverExactly` | app/core/transaction_celery.py:60-161 | in every history the tasks handed over are exactly, and in order, those queued since the outcome before each commit |
| `Dispatcher.AtMostOnce` | app/core/transaction_celery.py:60-161 | no task is handed over more often than it was queued, and none that still waits has been |
| `Pagination.QueryResult` | app/repositories/assistant_repository.py:53-81 | a query returns exactly the selected rows after the cursor, each once, in descending (created_at, id) order |
| `Pagination.QueryListing` | app/repositories/assistant_repository.py:53-81 | by columns: newest first and larger ids first, exactly the rows with the given visibility, status and owner that lie after the cursor |
| `Pagination.PageLaw` | app/repositories/assistant_repository.py:76-89 | a page is the first size rows, and has a next cursor, that of its last row, exactly when more follow |
| `Pagination.SortedUnique` | app/repositories/assistant_repository.py:76-78 | a sorted listing is determined by its elements |
| `Pagination.QueryResumes` | app/repositories/assistant_repository.py:62-87 | resuming at a row's cursor returns exactly the rows listed after it, ties included |
| `Pagination.Traverse` | app/repositories/assistant_repository.py:41-89 | following the cursor until none visits every selected row exactly once, in order, for every page size of at least one, in finitely many pages; size 0 visits nothing |
| `Conversation.ConversationStore.ReserveTurnIndexes` | app/repositories/conversation_session_repository.py:115-173 | the block handed out and the new count, for a new and an existing session |
| `Conversation.ConversationStore.UpsertSession` | app/repositories/conversation_session_repository.py:50-97 | the new count, never below the old one |
| `Conversation.ConversationStore.BulkInsertMessages` | app/repositories/conversation_message_repository.py:19-97 | the stored messages and the number inserted, with skipped and conflicting rows; without a session the insert fails and stores nothing |
| `Conversation.ReservationsAscend` | app/repositories/conversation_session_repository.py:125-173 | over every sequence of calls reserved indexes increase strictly and stay within the count |
| `Conversation.BlockAboveEverything` | app/repositories/conversation_session_repository.py:163-173 | in every reachable state a new block is consecutive, above every stored turn and every index handed out, and ends at the new count |
| `Conversation.CountNeverDecreases` | app/repositories/conversation_session_repository.py:91-94 | no call lowers the count; a reservation raises it by its size at least, an upsert to the given count |
| `Conversation.ReservationStart` | app/repositories/conversation_session_repository.py:125-173 | a block starts right above the larger of count and highest stored turn, at 1 for a new session, has no gap and ends at the new count |
| `Conversation.UpsertSetsCount` | app/repositories/conversation_session_repository.py:63-94 | a created session starts with the given count or 0; an existing one keeps its count or takes a larger one |
| `Conversation.RowsAreIndexed` | app/repositories/conversation_message_repository.py:28-75 | the rows of a batch are exactly its messages with an index that is present and not zero |
| `Conversation.NothingDroppedIff` | app/repositories/conversation_message_repository.py:89-97 | an insert drops no row if and only if its turns are new and pairwise different |
| `Conversation.StoredAsGiven` | app/repositories/conversation_message_repository.py:89-97 | stored messages are never overwritten, and rows that are not dropped are stored with their content |
| `Conversation.DisciplinedLosesNothing` | app/repositories/conversation_message_repository.py:28-97 | writers that insert only reserved indexes, each once, never lose a message, and exactly those turns are stored |
| `ProviderModels.DedupePayloads` | app/repositories/provider_instance_repository.py:111-124 | the loop with its set of seen keys returns the deduplicated batch |
| `ProviderModels.DedupedKeys` | app/repositories/provider_instance_repository.py:111-124 | the kept payloads have pairwise different keys and cover all keys |
| `ProviderModels.FirstIsKept` | app/repositories/provider_instance_repository.py:115-123 | of several payloads with one key the first is kept |
| `ProviderModels.ProviderModelTable.Upsert` | app/repositories/provider_instance_repository.py:271-322 | both batch upserts; a payload without its key raises and leaves the table unchanged |
| `ProviderModels.UpsertKeepsUnique` | app/repositories/provider_instance_repository.py:295-319 | for every batch, duplicates included, (instance, model_id, upstream_path) stays unique although no lookup sees the batch's own rows |
| `ProviderModels.WithoutDedupeNotUnique` | app/core/database.py:30-35 | without the deduplication a repeated payload would be inserted twice |
| `ProviderModels.UpsertReflects` | app/repositories/provider_instance_repository.py:444-465 | the first payload of each key shows, field by field, in the row of its identity, old or new, as the mode prescribes |
| `ProviderModels.OthersUntouched` | app/repositories/provider_instance_repository.py:436-442 | rows of other instances and rows whose key is not in the batch are left as they were |
| `ProviderModels.OverridesPreserved` | app/repositories/provider_instance_repository.py:418-455 | with overrides preserved, manual rows and the protected fields of existing rows are unchanged |
| `ProviderModels.UpsertIdempotent` | app/repositories/provider_instance_repository.py:396-470 | repeating the same batch changes nothing but sync times |

## Left out

- Floating point and the precision context of `Decimal`: costs, balances and the script's numbers are exact reals.
- Request and token rates per minute, and the `defaults` argument of `get_or_create`.
- Text outside ASCII in cron expressions, time zones, and the end of the calendar in year 9999.
- Ledger.BillingRepository.DeductCall: follows the database path only; the Redis path, which copies the hash into the row, is related to it by `RedisQuota.RedisPathAgrees` and `Settlement.RedisDeductionCollects`, not part of the ledger's runs.
- Ledger.BillingRepository.CommitPendingCall: follows the database path only, likewise.
- RedisQuota.ScriptAgreesWithDatabase: reset dates in the future, which need a clock that ran backwards, and negative counters are not covered.
- CronSchedule.RunsFromEveryStart: exact for expressions that admit every weekday; for the others there is a sufficient condition and its sharpness, no characterisation of all of them.
- `_commit_transaction`, which infers a past deduction by comparing balances.
- A lost compare-and-swap inside the savepoint of `deduct`, and its effect on the session.
- Two calls of `record_and_adjust` with one trace id: the adjustment is not keyed by it, so the settlement laws are about distinct requests.
- Warming the Redis hash and its expiry in the middle of a settlement; the hash exists throughout a run.
- `CreditProtocol`: one tenant, and recharges and reversals only; deductions are there from the start.
- `get_or_set_singleflight`: its lock is not checked for the owner.
- The time-to-live of cache entries beyond eviction at any moment, and commands delayed in the network past their sender's next call.
- Latency, cost and reward fields of the bandit, `lift_cooldown`, and thresholds that change between feedbacks.
- Options lost when one keyword dictionary is shared between calls of `apply_async_after_commit`, a hand-over that raises, and commits of nested transactions.
- The text format of the page cursor: a cursor that does not parse is no cursor.
- `upsert_session` interleaved with itself: each call is one step; sessions' other columns are not modelled, nor are the metadata fields of messages.
- Generated ids of provider models, payloads that carry an instance id of their own, and the index on unified model ids.
- Usage summaries and the stream usage accumulator.
- Middleware, authentication, routes, schemas, search clients and logging, which would only add easy members.
