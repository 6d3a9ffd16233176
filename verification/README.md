# A verified model of the LLM gateway's decision logic

The gateway decides, for every chat request, whether a user may send it, which provider
should answer it, what quota it may spend, how much history fits the model's context, and
what a retry should be told. This project models those decisions in Dafny and proves what
they promise: over every history and budget, every interleaving of concurrent requests, every
run of a state machine.

`dafny verify dfyconfig.toml` checks everything. The modules follow the gateway's components:

| component | modules |
|---|---|
| context fitting | `Canonical`, `Selecting`, `Measuring`, `Dropping`, `DroppingTheorems`, `Truncating`, `Fitting` |
| per-user rate limiting | `SlidingWindow`, `RateLimiter`, `RateLimitProtocol`, `RateLimitDecisions` |
| circuit breaker | `ProviderErrors`, `CircuitBreaker`, `BreakerTheorems`, `BreakerClaims` |
| quota | `Quota`, `QuotaLedger`, `QuotaBounds`, `Lanes`, `PersonalCap` |
| idempotency | `Idempotency` |
| provider streams | `Sse`, `SseTheorems` |
| candidate chain | `Selection`, `ConfigOrder`, `Ranking` |
| extraction walk | `ExtractionWalk` |

How the model relates to the program:

- What the source changes step by step is a class or a method with loops; each is proved
  against a function of its inputs or old state, and the theorems are about that function.
- Redis is a map of values with expiry instants. Each Lua script, each breaker ask or report
  and each single command of the rate limiter and the idempotency store is one atomic step, and
  Redis answers. `BreakerClaims` takes an ask apart into its commands.
- Time is a `real` parameter that every call is given. Python floats are `real`: rounding
  error is not modelled.
- The token estimator and the projector are an arbitrary function of one message and the
  attachments (`Measuring.Measure`), so the fitting theorems hold for any of them.

Where the code disagrees with its documentation, or falls short of what its limits suggest, the
model follows the code:

- A personal cap repeats the label `rpd` (`app/quota/allocations.py:43-46` calls that
  harmless). The reservation record then holds 2 under that label and `_keys_for` finds only
  the cap's counter, once for each of the two windows. A release therefore leaves the model's
  own `rpd` counter one too high (`PersonalCap.CapLeaksModelRpd`) and takes 4 off the user's
  allowance, which was charged 1: a net loss of 3, each refund stopping at zero
  (`PersonalCap.CapLosesThree`). `PersonalCap.ReleaseRestoresIff` says exactly when a release is
  right, `PersonalCap.CappedRunsMatchLedger` what still holds over whole runs with caps.
- Two windows of one reservation on one counter are each checked alone in `reserve.lua`, so
  together they can pass the limit. `QuotaBounds.PassesIff` says exactly when,
  `QuotaBounds.SharedCounterExample` gives numbers; chat never does
  (`PersonalCap.ChatNeverOvershoots`), and a perception reservation can only if its model
  publishes both daily windows (`Lanes.PerceptionOvershootsIff`).
- The two lanes' daily limits fit into one published day exactly when the day has room for two
  requests and a reservation or some headroom is configured; a published limit of one is
  exceeded by exactly one (`Lanes.LanesFitOneDay`).
- The breaker's documentation (`app/routing/circuit_breaker.py:226-237`) allows two probes only
  when a stale holder is replaced. Command by command, a caller that lost the HSETNX to a fresh
  claim also goes through if it reads the hash again before the winner's lease write, and so can
  any number of them (`BreakerClaims.ReadPassesIff`, `BreakerClaims.FreshClaimsAllProbe`). With
  asks as atomic steps there is one probe per lease; `BreakerClaims.AloneIsAtomic` says that such
  a step is what the commands do when nobody interleaves.
- The stream reader's documentation says a blank line pushes the idle deadline forward
  (`app/providers/base.py:407-409`). In the code only a `data:` line does.
- The same documentation speaks of the SSE format, which takes one space off a data field
  (section 9.2.6 of the WHATWG HTML Living Standard). The code takes off all leading
  whitespace, so a payload survives exactly when none of its lines starts with any
  (`SseTheorems.SurvivesIff`).

## Model

| member | source | states |
|---|---|---|
| `Canonical.CanonicalIffBuiltByAppends` | app/memory/canonical.py:547-621 | a history satisfies the invariants (sequence numbers 0..n-1, system only first, no adjacent assistants, content non-empty, provenance matching role) exactly when successive checked appends can build it |
| `Canonical.CanonicalExtends` | app/memory/canonical.py:547-580 | a canonical prefix plus one message is canonical exactly when the append checks pass |
| `Canonical.Validate` | app/memory/canonical.py:583-621 | accepts exactly the canonical histories, so the duplicate and ordering checks shut out nothing more; a rejection is the complaint about the first message that breaks canonicity: its number taken, out of order or no start, then its own faults, then a gap, then a second answer |
| `Canonical.OffenderIsUnique` | app/memory/canonical.py:583-621 | that first message is unique, so the reported violation is determined |
| `Dropping.PinnedIndices` | app/memory/fitting.py:237-255 | the scan from the end pins exactly what `PinnedExactly` says |
| `Dropping.PinnedExactly` | app/memory/fitting.py:237-255 | pinned is a leading system message, the last user message, the tail of a history that has no user message, and nothing else |
| `Dropping.DroppableGroups` | app/memory/fitting.py:258-282 | the loop's groups are the whole turns of the unpinned positions |
| `Dropping.TurnsPartition` | app/memory/fitting.py:258-282 | the groups cut the ascending unpinned positions into consecutive non-empty pieces, none missing, none twice |
| `Dropping.TurnsAreWhole` | app/memory/fitting.py:258-282 | no group ends on a question whose droppable answer comes right after it |
| `Dropping.TurnsAreMinimal` | app/memory/fitting.py:258-282 | nor is a group more than one message or a question with its answer |
| `Dropping.MarkingAdds` | app/memory/fitting.py:330-339 | merging a marker adds exactly the given count to what the message reports missing, whether or not it had one |
| `Dropping.MarkingRaises` | app/memory/fitting.py:330-339 | marking changes nothing but the content's first marker, which grows by the count; content without a marker gets one in front |
| `Dropping.RaisedKeepsOthers` | app/memory/fitting.py:330-339 | every block that is no marker, text and file references alike, is still there and in order |
| `Dropping.ApplyMarkerCosts` | app/memory/fitting.py:285-327 | cached costs that were right for the messages are right for the survivors with their merged marker |
| `Dropping.DropOldestTurns` | app/memory/fitting.py:193-234 | the loops return the history trimmed by the number of turns `ShortestPrefix` characterises, its recomputed costs, and how many messages went |
| `DroppingTheorems.SurvivorsKeepOrder` | app/memory/fitting.py:285-327 | every survivor is in the result, in its order and unchanged, except the first one (or the second behind a system prompt) once something was dropped: its first marker reports what was dropped plus what the dropped ones reported; survivors plus dropped is the original count |
| `DroppingTheorems.OldestGoFirst` | app/memory/fitting.py:193-234 | only unpinned messages are dropped, and never one while an older unpinned one stays |
| `DroppingTheorems.LastUserSurvives` | app/memory/fitting.py:237-255 | the last user message survives any number of dropped turns |
| `DroppingTheorems.NoOrphanedAnswer` | app/memory/fitting.py:258-282 | an assistant message goes whenever the user message right before it goes |
| `DroppingTheorems.SystemSurvives` | app/memory/fitting.py:237-255 | in a history `validate` accepts, no system message is ever dropped |
| `DroppingTheorems.OmissionsConserved` | app/memory/fitting.py:285-339 | the markers of the result sum to the markers of the input plus the messages dropped, also when dropped messages carried markers |
| `DroppingTheorems.ShortestPrefix` | app/memory/fitting.py:193-234 | the turns dropped are the shortest non-empty prefix that fits with its marker, or all of them |
| `Truncating.LargestTruncatable` | app/memory/fitting.py:400-411 | finds the longest document that can still be cut, the first of equals, or that there is none |
| `Truncating.CutProgress` | app/memory/fitting.py:365-392 | every round shortens the texts, or leaves them and exhausts one more document: the termination measure |
| `Truncating.CutTakesTheExcess` | app/memory/fitting.py:373-395 | a round shortens the chosen document by four characters per token over budget, down to the floor and no further, keeping its head; a document at the floor is left alone and exhausted, the others are untouched |
| `Truncating.CutAgain` | app/memory/fitting.py:376-388 | cutting a cut document again leaves a prefix of the original and exactly one notice |
| `Truncating.TruncateDocuments` | app/memory/fitting.py:345-397 | the loop terminates and ends in the state `TruncateSound` is about |
| `Truncating.TruncateSound` | app/memory/fitting.py:345-397 | throughout, the running total is the recomputed one and each document is its original or a prefix of at least the minimum plus one notice; stopping over budget leaves no injected document above the floor |
| `Fitting.Fit` | app/memory/fitting.py:119-187 | the whole pipeline computes the outcome the next rows are about |
| `Fitting.FittedIsMeasured` | app/memory/fitting.py:119-187 | a result's reported tokens equal the cost recomputed from scratch over what is returned, are within budget, and its documents are cuts of the originals |
| `Fitting.GivesUpLast` | app/memory/fitting.py:119-187 | `ContextTooLong` exactly when the input is over budget and so is what dropping and cutting leave; then the loop dropped every turn, and every injected document it ended with is a cut of its original at the floor |
| `Fitting.RefitUnchanged` | app/memory/fitting.py:119-187 | fitting a result again at the same budget returns it unchanged |
| `Fitting.FitConservesOmissions` | app/memory/fitting.py:119-187 | end to end, markers grow by exactly `messages_dropped`, and survivors plus dropped is the original count |
| `Fitting.FitKeepsContent` | app/memory/fitting.py:119-187 | end to end, a kept message is the same message in its order with every block that is no marker in place; only the message that opens the rest reports what was dropped |
| `Fitting.FitKeepsTheQuestion` | app/memory/fitting.py:119-187 | the last user message is always in the result with all its text and file references |
| `Fitting.FitGivesUpInOrder` | app/memory/fitting.py:142-187 | a history that fits is returned as it is; a document is cut only after every droppable message is gone and that was not enough |
| `Measuring.CostIsCharged` | app/memory/fitting.py:417-456 | a message costs its estimated projection, four tokens, and the declared size of each native file once per reference |
| `Measuring.InjectedIsNotCharged` | app/memory/fitting.py:417-431 | with the same projection, an injected file's declared size never enters a cost |
| `Measuring.ByHashIsLast` | app/memory/fitting.py:394-395 | a hash stands for the last attachment that carries it |
| `SlidingWindow.RetryAfterSolves` | app/deps.py:552-594 | for an exceeded window the final fallback is unreachable: what is returned is the solved instant, rounded up, and it lies ahead |
| `SlidingWindow.RetryFitsFromSolved` | app/deps.py:552-594 | within reach of the solved instant a retry fits exactly when it does not come before it, in this bucket, the next or the one after |
| `SlidingWindow.RetryAfterExact` | app/deps.py:460-594 | after a rejection and its refund, with no other traffic, a retry after the returned seconds fits and a retry after any smaller positive whole number does not |
| `RateLimiter.NeverExpiredEarly` | app/cache/keys.py:113-116 | with the doubled TTL both buckets a decision reads still hold their true counts for the whole current bucket |
| `RateLimiter.RateLimiter.CountOne` | app/deps.py:488-532 | counting over expiring keys agrees with counting over keys that never expire; other windows are untouched |
| `RateLimiter.RateLimiter.CountAll` | app/deps.py:488-532 | every window is counted once |
| `RateLimiter.RateLimiter.RefundAll` | app/deps.py:534-549 | every window's increment is taken back, nothing else changes |
| `RateLimiter.RateLimiter.Enforce` | app/deps.py:407-486 | admitted exactly when every window fits, and then counted once in each; refused for the first window over, with every count restored and a number of seconds after which a retry fits and before which none does, in every store the class can reach |
| `RateLimitProtocol.AdmittedWithinLimit` | app/deps.py:407-549 | for every interleaving of single INCR, GET, decision and refund steps, failed refunds included, the requests admitted in a bucket never exceed its limit |
| `RateLimitProtocol.BucketAccounting` | app/deps.py:488-549 | a bucket equals admitted plus undecided plus rejected-but-not-refunded; when all refunds went through, admitted plus undecided |
| `RateLimitDecisions.DecidedByWhatItRead` | app/deps.py:460-532 | for every interleaving, a decided request is admitted exactly when in each window the sliding count of what it read is within the limit |
| `SlidingWindow.SlidingCountInterpolates` | app/quota/windows.py:145-156 | the sliding count runs in proportion from both buckets in full to the current one alone |
| `RateLimitDecisions.AloneAgrees` | app/deps.py:433-532 | with nobody in between, a one-window request is decided as the sliding window decides it from the shared counts |
| `RateLimitProtocol.StepCrowd` | app/deps.py:460-532 | no step adds a contender to a bucket that has no room left: the invariant behind the bound |
| `CircuitBreaker.CircuitBreaker.Allows` | app/routing/circuit_breaker.py:163-289 | the ask, claim and lease write are the atomic step the theorems speak of, whether the slot was free or stale |
| `CircuitBreaker.CircuitBreaker.Peek` | app/routing/circuit_breaker.py:291-332 | available exactly when stored closed; the retry hint is zero exactly from the deadline on; nothing is claimed |
| `CircuitBreaker.CircuitBreaker.RecordSuccess` | app/routing/circuit_breaker.py:334-368 | the guarded writes leave the state of the atomic success step |
| `CircuitBreaker.CircuitBreaker.RecordFailure` | app/routing/circuit_breaker.py:370-460 | count, then open: the state of the atomic failure step |
| `BreakerTheorems.ReachableInv` | app/routing/circuit_breaker.py:424-478 | in every reachable state that is not closed the cooldown is between initial and maximum and ends before the key expires |
| `BreakerTheorems.AskAdmitsIff` | app/routing/circuit_breaker.py:163-289 | an ask is admitted exactly when the breaker is closed or past its deadline, whoever holds the probe; a refusal's hint is the time left |
| `BreakerTheorems.RefusedUntilDeadline` | app/routing/circuit_breaker.py:191-212 | any number of asks before the deadline are all refused |
| `BreakerTheorems.OneProbePerLease` | app/routing/circuit_breaker.py:214-289 | from any reachable state, after a probe is granted every ask within one stored cooldown is refused while no outcome is recorded |
| `BreakerTheorems.DefaultCooldowns` | app/routing/circuit_breaker.py:424-478 | at the shipped constants every reachable open breaker waits 30 to 300 seconds and its key outlives that |
| `BreakerClaims.AloneIsAtomic` | app/routing/circuit_breaker.py:163-289 | one caller's commands with nobody in between leave the hash and the answer of the atomic ask |
| `BreakerClaims.ReadPassesIff` | app/routing/circuit_breaker.py:191-289 | for every interleaving past the deadline, a first read leads to the claim and the second read of an HSETNX loser lets it through, exactly when no lease was written within one cooldown before it |
| `BreakerClaims.OneTakesTheSlot` | app/routing/circuit_breaker.py:249-258 | in every interleaving at most one caller wins the HSETNX |
| `BreakerClaims.AnyNumberThrough` | app/routing/circuit_breaker.py:214-289 | from any breaker past its deadline any number of callers can all be let through at one instant |
| `BreakerClaims.FreshClaimsAllProbe` | app/routing/circuit_breaker.py:214-289 | such a breaker is reachable with its slot free, where as atomic asks the second one is refused |
| `BreakerTheorems.ClosedCountsStreak` | app/routing/circuit_breaker.py:334-419 | in every sequential run a closed breaker has counted exactly the eligible failures since the last success: the guarded reset refines an unconditional one |
| `BreakerTheorems.OpensExactly` | app/routing/circuit_breaker.py:370-419 | it opens exactly at the first rate limit or when the streak reaches the threshold |
| `BreakerTheorems.HintIsHonoured` | app/routing/circuit_breaker.py:370-478 | a rate limit with a hint shuts the breaker for exactly the hinted time, not less than the initial cooldown nor more than the maximum, from closed and from a probe alike |
| `BreakerTheorems.OpensAtInitial` | app/routing/circuit_breaker.py:370-478 | a hint-free opening shuts it for exactly the initial cooldown |
| `BreakerTheorems.ReopensHigher` | app/routing/circuit_breaker.py:370-478 | a hint-free failed probe shuts it for the last cooldown times the factor, capped |
| `BreakerTheorems.SuccessCloses` | app/routing/circuit_breaker.py:334-368 | a successful probe lets everyone through again, with no failures counted and the slot free |
| `BreakerTheorems.RungClosedForm` | app/routing/circuit_breaker.py:466-478 | the k-th rung is min(initial * factor^k, maximum) |
| `BreakerTheorems.LadderAfterProbes` | app/routing/circuit_breaker.py:370-478 | k failed hint-free probes from the initial cooldown, refused asks in between, leave the k-th rung |
| `BreakerTheorems.LadderFromOpening` | app/routing/circuit_breaker.py:370-478 | the climb from a hint-free opening itself |
| `Quota.QuotaTracker.ReserveWindows` | app/quota/scripts/reserve.lua:1-90 | granted exactly when every window affords its cost before any is charged; then all are charged and noted, otherwise nothing changes |
| `Quota.QuotaTracker.Commit` | app/quota/scripts/commit.lua:1-70 | corrects the counter of every token window the reservation holds and the provider still publishes from the estimate to the actual, and forgets the record; nothing once the record is gone |
| `Quota.SettledExactly` | app/quota/tracker.py:353-357 | the windows a commit settles are exactly the published token windows of the reservation, each once |
| `Quota.QuotaTracker.Release` | app/quota/scripts/release.lua:1-45 | gives back what the record notes and forgets it; nothing once the record is gone |
| `QuotaLedger.RefundAt` | app/quota/scripts/release.lua:1-45 | on a counter no repeated label leads to, a release takes off exactly the costs of the windows it finds |
| `QuotaLedger.SettleAt` | app/quota/scripts/commit.lua:1-70 | on such a counter a commit replaces estimate by actual and nothing else |
| `QuotaLedger.StepBalanced` | app/quota/tracker.py:226-398 | every reserve, commit, release, lapse or reset elsewhere keeps such a counter equal to the ledger |
| `QuotaLedger.CountersMatchLedger` | app/quota/tracker.py:226-398 | over every run before counter k resets, k is the costs of live and lapsed reservations, for committed ones the actual on every published token window and the cost elsewhere, plus the released windows whose label a later window took; any grants, except that no repeated label may lead to k |
| `QuotaBounds.RequestsNeverAboveLedger` | app/quota/tracker.py:226-398 | without that exception, and through resets: a counter of requests never stands above the ledger |
| `QuotaBounds.OverspendIsBounded` | app/quota/tracker.py:226-398 | over every run with any grants, resets and lapses included, no counter is negative and none exceeds the largest limit used on it by more than the summed underestimates plus what windows sharing it let through; the first part is nothing for request counters, the second for counters no reservation uses twice |
| `QuotaBounds.PassesIff` | app/quota/scripts/reserve.lua:1-90 | in some run a granted reservation takes counter k past its limits exactly when each window affords its own cost and each window on k, with the others' costs on top, passes the largest limit there |
| `QuotaBounds.SharedCounterExample` | app/quota/lanes.py:108-113 | a request and a token window with limit 10 on one counter and 10 tokens leave it at 11 |
| `Lanes.LanesFitOneDay` | app/quota/tracker.py:622-641 | answer plus perception limit is within the published day exactly when the day is at least two and something is held back; never more than one over |
| `Lanes.LanesUseTheDay` | app/quota/tracker.py:622-641 | and together they are less than three short of the published day less the headroom |
| `Lanes.LimitsAreWholeShares` | app/quota/tracker.py:622-641 | chat's limit and a per-minute limit are the whole part of their exact shares, and at least one |
| `Lanes.LaneLimitIsWholeShare` | app/quota/lanes.py:62-79 | the lane's daily limit is the whole part of the whole reserved part less the headroom, and at least one |
| `Lanes.AnswerAffordableIff` | app/quota/tracker.py:174-225 | a chat reservation is granted exactly when each published window's counter has room under chat's share for one request, or for the estimate in a token window |
| `Lanes.PerceptionAffordableIff` | app/quota/lanes.py:78-153 | a perception reservation exactly when the daily windows have room on the lane's counter and the per-minute ones on chat's |
| `Lanes.BuildPerceptionGrants` | app/quota/lanes.py:120-146 | the loop builds one grant per declared window, daily ones on the lane's key |
| `Lanes.PerceptionGrantsShape` | app/quota/lanes.py:78-146 | perception labels are always distinct; its counters are distinct exactly when not both daily windows are published; per-minute counters are chat's |
| `Lanes.PerceptionOvershootsIff` | app/quota/lanes.py:78-146 | a perception reservation can pass a counter's limits exactly when that is the lane's, both daily windows are published, the token windows afford the estimate, and the token limit is at least the request limit and less than it plus the estimate |
| `PersonalCap.DistinctIsUndone` | app/quota/tracker.py:387-398 | with distinct labels, reserve then release restores every counter |
| `PersonalCap.ChatNeverOvershoots` | app/quota/allocations.py:38-73 | a chat reservation, capped or not, uses each counter once and passes no limit |
| `PersonalCap.CapAffordableIff` | app/quota/allocations.py:38-73 | with a cap the reservation also needs the user's requests so far to be below it, and nothing else |
| `PersonalCap.CapLeaksModelRpd` | app/quota/tracker.py:656-672 | with a second `rpd` grant the release leaves the model's own counter one too high |
| `PersonalCap.CapLosesThree` | app/quota/tracker.py:656-672 | and the cap's counter goes from v to max(0, max(0, v - 1) - 2): three too low from v = 3 on |
| `PersonalCap.ModelRpdNeverGivenBack` | app/quota/tracker.py:656-672 | such a reservation counts one on the model's `rpd` for ever, released or not |
| `PersonalCap.CappedRunsMatchLedger` | app/quota/tracker.py:226-398 | over every run of capped and uncapped chat, all counters but the allowances match the ledger until they reset, allowances are never above it, and no counter passes its largest limit by more than the underestimates |
| `PersonalCap.ReleaseRestoresIff` | app/quota/allocations.py:38-73 | a release on the shared pool restores every counter exactly when there is no cap or the model publishes no `rpd` |
| `PersonalCap.CapReleaseExample` | app/quota/allocations.py:65-73 | one reserved and released request: the model's counter goes from 5 to 6, the user's from 10 to 7 |
| `Lanes.Declare` | app/quota/windows.py:118-142 | fails exactly when a published window has no reset kind; otherwise the published windows in the fixed order |
| `Lanes.Declared` | app/quota/windows.py:118-142 | exactly the published windows, none twice, rpm before rpd before tpm before tpd |
| `Idempotency.EnvelopeRoundTrip` | app/cache/idempotency.py:186-272 | a stored envelope reads back unchanged, also with fields a newer version added |
| `Idempotency.ReadsExactly` | app/cache/idempotency.py:227-272 | reading gives an envelope exactly when the stored object says field by field what writing it says; everything else is refused |
| `Idempotency.IdempotencyStore.Claim` | app/cache/idempotency.py:330-387 | the SET NX step of the runs below, then Claimed if it won and what the slot holds when read otherwise |
| `Idempotency.IdempotencyStore.Complete` | app/cache/idempotency.py:389-423 | the completion step of those runs: the finished answer with a fresh TTL |
| `Idempotency.IdempotencyStore.Release` | app/cache/idempotency.py:425-439 | the release step of those runs: the slot is free and no other is touched |
| `Idempotency.LastWriteStands` | app/cache/idempotency.py:330-439 | for every interleaving, what a slot holds was written by the last step that touched it |
| `Idempotency.ReplayIsFaithful` | app/cache/idempotency.py:330-439 | for every interleaving, a replay is the unexpired envelope of an earlier completion of the same user, key and fingerprint, with nothing written or deleted since |
| `Idempotency.ClaimsExclude` | app/cache/idempotency.py:330-439 | between two winning claims of a slot there is a release or an expired write |
| `Idempotency.CompletedIsReplayed` | app/cache/idempotency.py:330-439 | while a completed answer stands, claims lose, the same request replays it and a different one is refused |
| `Idempotency.RunningIsInFlight` | app/cache/idempotency.py:330-387 | while a winning claim stands unexpired, the same request is told it is in flight and a different one is refused |
| `Idempotency.LoserGoesAheadIff` | app/cache/idempotency.py:360-387 | a claim that lost goes ahead exactly when the slot is gone, expired or unreadable at its read |
| `Idempotency.LoserIsAnswered` | app/cache/idempotency.py:330-439 | over every run, a loser goes ahead exactly when no unexpired write stands, and otherwise is answered from that write |
| `Sse.StreamEvents` | app/providers/base.py:439-491 | the loop with its buffer and deadline yields the closed events before `[DONE]` among the lines in time, plus a pending one at the end, and stalls exactly when a line or the end is late before `[DONE]` |
| `SseTheorems.NoiseIsInvisible` | app/providers/base.py:462-482 | lines that are neither data nor blank, comments and other fields alike, change no event |
| `SseTheorems.CommentIsNoise` | app/providers/base.py:462-469 | every comment is such a line |
| `SseTheorems.RoundTrip` | app/providers/base.py:439-491 | payloads other than `[DONE]` whose lines have no CR and no leading whitespace, written as data lines with any padding, line ends, comments and other fields, are read back exactly |
| `SseTheorems.SurvivesIff` | app/providers/base.py:470-482 | a payload without CR is read back unchanged exactly when none of its lines starts with whitespace |
| `SseTheorems.RoundTripUnclosed` | app/providers/base.py:484-491 | the same when the last blank line is missing |
| `SseTheorems.RoundTripThenDone` | app/providers/base.py:475-482 | the same with the sentinel behind them, whatever follows and however late |
| `SseTheorems.NothingAfterDone` | app/providers/base.py:475-482 | `[DONE]` is never yielded and nothing after it changes the reading |
| `SseTheorems.SilenceIsBounded` | app/providers/base.py:442-474 | without a stall whatever arrives does so within the idle timeout of the last data line, however many keepalives came between; a later arrival stalls |
| `SseTheorems.StallsIff` | app/providers/base.py:442-474 | the reading stalls exactly when a line or the end is asked for or comes too late after the last data line, or after the start if there was none, with no sentinel read by then |
| `Selection.Fleet` | app/routing/selection.py:159-181 | the loops return exactly the chain `FleetInOrder` describes |
| `ConfigOrder.FleetInOrder` | app/routing/selection.py:159-181 | a pair is in the auto chain exactly when a slot that is neither internal nor private-key lists it; each stands once, as its first such slot lists it, in the order of slots and of places within a slot |
| `ConfigOrder.UnrankedIsChain` | app/routing/selection.py:144-156 | for `auto` that chain; for a slot its own candidates, then the offered pairs it does not have, in that order |
| `ConfigOrder.ChainHolds` | app/routing/selection.py:144-156 | such a chain holds the offered pairs and the named slot's own, and no other |
| `Selection.FirstsOnce` | app/routing/selection.py:170-181 | de-duplication leaves distinct pairs and loses none |
| `Ranking.Rank` | app/routing/selection.py:206-241 | the result is a ranking: a permutation that fixes every unmeasured candidate and puts the measured ones, ascending and stable, on exactly the measured positions |
| `Ranking.RankingIsUnique` | app/routing/selection.py:206-241 | that description has exactly one solution |
| `Ranking.RankingIsIdempotent` | app/routing/selection.py:206-241 | ranking a ranked chain changes nothing |
| `Ranking.RankingPermutes` | app/routing/selection.py:206-241 | same candidates with the same multiplicity; distinct pairs stay distinct |
| `Ranking.RankingMeans` | app/routing/selection.py:206-241 | unmeasured candidates stay put, measured ones come out fastest first, equals keep their order |
| `Ranking.OpinionIff` | app/usage/metrics.py:98-107 | a candidate is measured exactly when its pair has enough samples, and by their average |
| `Ranking.StableSorted` | app/routing/selection.py:235-236 | Python's stable sort: the same entries, by latency and then by position |
| `Ranking.ResolvePin` | app/routing/selection.py:184-203 | the first candidate of that name in a slot that is not internal, by slot and place; unknown exactly when none has it |
| `Ranking.Candidates` | app/routing/selection.py:103-156 | a pin wins; otherwise a ranking of the chain the table asks for, so nothing only an internal or private-key slot lists unless that slot was named; unknown exactly for a name that is neither `auto` nor a slot |
| `Ranking.CandidatesOnce` | app/routing/selection.py:144-181 | the ranked chain names no candidate twice exactly when the named slot does not |
| `ExtractionWalk.WalkCandidates` | app/perception/extractors.py:366-482 | for every chain and all answers, the loop does what the next rows describe, in that order |
| `ExtractionWalk.CalledExactly` | app/perception/extractors.py:366-431 | a candidate is called exactly when the file fits, the breaker admits, the quota does not refuse, and every earlier one was skipped or failed over |
| `ExtractionWalk.SettledExactlyOnce` | app/perception/extractors.py:407-459 | each candidate is called and reserved for at most once; each reservation is settled exactly once, by release exactly when the call raised something that is no provider error |
| `ExtractionWalk.CommitsTheActual` | app/perception/extractors.py:430-458 | a commit charges the actual tokens after a completion and none after a provider error |
| `ExtractionWalk.ReportedOnce` | app/perception/extractors.py:430-459 | the breaker hears of each call exactly once, and not at all of one that raised |
| `ExtractionWalk.ReportsTheOutcome` | app/perception/extractors.py:430-470 | a success is reported and persisted exactly for a completion, a failure with that very error exactly for a provider error, and a private key is marked exactly when it failed to authenticate |
| `ExtractionWalk.AdmittedAskReportedIff` | app/perception/extractors.py:379-459 | each candidate that is small enough is asked about once; an admitted ask is reported back exactly when the quota did not refuse and the call did not raise, so otherwise a granted probe is left to its lease |
| `ExtractionWalk.TurnInOrder` | app/perception/extractors.py:407-459 | a reservation is made just before its call and settled just after it, before the breaker hears of the result |
| `ExtractionWalk.OneAtATime` | app/perception/extractors.py:366-482 | one candidate is finished before the next is looked at, so no two reservations are open together |
| `ExtractionWalk.NothingAfterStop` | app/perception/extractors.py:430-479 | after a call that did not fail in a failover-eligible way no other candidate is touched |
| `ExtractionWalk.ExtractsIff` | app/perception/extractors.py:366-482 | the walk extracts with a candidate exactly when that one completes and every earlier one was skipped or failed over |

## Left out

- HTTP clients, provider payloads, error-body parsing, the router, the streaming orchestrator, repositories, authentication and the web layer.
- The Redis-outage branches: limiter and breaker failing open, quota failing closed, degraded claims.
- Time zones and counter TTLs of provider windows; a window reset is an expiry step that may come at any time.
- `remaining`, `apply_hint` and `_closest_window` of the quota tracker, and `input_budget` of fitting: short arithmetic over the modelled state.
- The summarising strategy of fitting, which the code refuses.
- The JSON text encoding and `MessageMeta.to_jsonb`/`from_jsonb`; the idempotency envelope is modelled over parsed JSON.
- Cancellation of a process in the middle of a call, which the code leaves to reservation and lease expiry.
- Transport faults in the middle of a stream, and how the HTTP library splits bytes into lines.
- The latency table itself: a snapshot is any table of samples.
- CircuitBreaker.CircuitBreaker.Allows: one atomic step; single commands are in `BreakerClaims`, for a stretch without key expiry or reports. Reports at single-command granularity are left out.
- QuotaLedger.CountersMatchLedger: leaves out a counter that a repeated label leads to, because it is false there (`PersonalCap.CapLosesThree`); `QuotaBounds.RequestsNeverAboveLedger` is what holds.
- RateLimiter.RateLimiter.Enforce: limits are at least one, as the configuration demands (app/config.py:468-469), calls come in clock order, and an unknown tier is left out; the refund uses the same instant as the count, and other requests come in between only in `RateLimitProtocol`.
- Idempotency.ClaimsExclude: says nothing about claims that go ahead because the slot vanished or holds something unreadable when it is read.
- ExtractionWalk.WalkCandidates: payload building, persistence and confidence grading are not modelled; persistence is only an entry in the trace.
