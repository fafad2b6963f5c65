# Protocols of the meetup backend, modelled and proved in Dafny

The model follows the state-changing protocols of the `auth` and `analytics` modules, and a few small
state machines beside them, at the grain of one store call: between any two calls other requests run,
and any call can fail before or after its effect. Each protocol has

- a transition function over a plain state, `Next`, and `After` for whole histories; theorems are about
  `After(Init, h)` for every `h`, so about every interleaving, failure and crash;
- a class with the code's own methods, straight-line as in the source. Its `Valid()` says that the fields
  are the state of a history, its repository methods state what one statement does, and its handlers are
  proved to make only steps of that history, with arbitrary steps of others in between. A class can also be
  told that nothing else runs, or that nothing fails; then its handlers' answers are exact.

| file | what it models |
|---|---|
| `Prelude.dfy` | options, store faults, counting, what has happened in a history |
| `OtpProtocol.dfy`, `OtpTheorems.dfy`, `OtpIssues.dfy`, `OtpAnswers.dfy`, `OtpService.dfy` | one-time codes: two-level daily budgets, attempts, single use, which issue a guess spends, and the reason for every answer |
| `RefreshTokens.dfy`, `RefreshTheorems.dfy`, `RefreshRevocation.dfy`, `RefreshOrigins.dfy`, `RefreshService.dfy` | refresh-token rotation, reuse detection and revocation, and the event behind every fact and answer |
| `ChainSweep.dfy` | the retention sweeps over token chains and flat tables |
| `Retention.dfy`, `RetentionSweeps.dfy` | raw partitions, aggregation by Colombo day, archive and drop |
| `DailyReport.dfy`, `ReportTicks.dfy`, `DailyReportService.dfy` | the daily report's claim, delivery and retries, and what becomes of one tick |
| `EventBuffer.dfy`, `EventRows.dfy`, `EventBufferService.dfy` | the analytics buffer, its barrier, deletion and consent, and which events have rows |
| `ChunkedUpload.dfy` | the chunked resumable upload |
| `Accounts.dfy`, `AccountOrigins.dfy`, `AccountService.dfy` | accounts, identities, claims and the trust ladder, and where each field comes from |
| `ClaimTicket.dfy` | the signed claim ticket |
| `OrderGuardedCache.dfy` | order-guarded caches and their backfills |
| `ScheduledWork.dfy` | sweep budgets under one deadline |
| `LocalSearch.dfy` | the iOS autocomplete channel |
| `RequestKeys.dfy` | the limiter's client address and body field |

`dafny verify dfyconfig.toml` checks the whole project.

## Where the code differs from what is said about it

- Two comments in `identity_resolution.go` (118-120, 264-265) say "Level 0" for a new Apple, Google or email
  account; `trustlevel.go:62-65` makes it 1, and the model follows that.
- A refresh whose token expires between the check and the claim is answered as reuse and ends every session
  of the user (`RefreshTheorems.ExpiryAtTheClaimRevokesEverySession`;
  `RefreshRevocation.AnUntouchedTokenIsTakenForReuseExactlyWhenClaimedLate` says exactly when).
- `refresh_tokens_postgres.go:143-147` says a concurrent refresh cannot slip a newly rotated token past the
  revocation. One statement does not see rows committed after it began, so a rotation in flight can
  (`RefreshRevocation.ARotationInFlightSlipsPast`;
  `RefreshRevocation.AChainOutlivesItsRevocationExactlyThroughARotationInFlight` says exactly when).
- A logged-out session that was refreshed once leaves a revoked row the sweep cannot reach until its
  predecessor expires (`ChainSweep.LogoutLeavesAPinnedRow`).
- A stale guess can spend a newer issue when the same six digits were drawn again
  (`OtpTheorems.AReissuedCodeIsSpentByAStaleGuess`; `OtpIssues.WhenAGuessSpendsAnotherIssue` says exactly when).
- A guess that deletes its expired or used-up code can delete a newer one instead
  (`OtpIssues.AStaleGuessDeletesANewerCode`; `OtpIssues.WhenAGuessClearsAnotherIssue` says exactly when).
- A claim leaves the sign-in unattached in a third case besides the two documented ones: the account already
  has another Apple or Google identity (`Accounts.WhenAClaimAttaches`).
- Connecting LinkedIn again with another member replaces the subject the account had
  (`Accounts.WhenALinkedInSubjectLosesItsAccount`).
- A source that fails with the bare error "unexpected EOF" looks to the upload like one that ends, so the
  truncated object is finished and reported as stored (`ChunkedUpload.ATruncatedBodyIsReportedAsStored`), and
  a day archived that way is dropped (`Retention.ATruncatedArchiveLosesEvents`;
  `Retention.ADroppedDayIsArchivedExactlyWhenNotCutShort` says exactly when).
- Overlapping retention ticks can aggregate a day again from what is left of it
  (`Retention.AStaleListingReplacesCompleteRows`), and an event flushed after its day was aggregated is counted
  nowhere (`Retention.ALateFlushIsNeverCounted`, `Retention.CountedExactlyWhenNotLate`).
- A day's attempts pass 24 through regenerations, never its claims (`DailyReport.RegenerationPassesTheCap`). A
  report can be mailed twice when a tick's failure is recorded after its claim was taken over, which the
  context-free last write allows (`DailyReport.ALateFinishMailsTwice`; `DailyReport.TwoEmailsExactlyWhenCrowded`
  and `DailyReport.WhenAClaimCrowdsTheDay` say exactly when), and once more after a mark by hand
  (`DailyReport.AHandMarkDoesNotStopATick`).
- `analytics_wiring.go:34-35` says a redelivered outbox row is stored once. The key includes the UTC day of
  reception, so after midnight it is stored again (`EventBuffer.ARedeliveryOnAnotherDayIsStoredTwice`;
  `EventBuffer.AnIdentifierHasOneRowExactlyWithinADay` says exactly when).

## Model

| member | source | states |
|---|---|---|
| `OtpProtocol.AfterInv` | backend/internal/modules/auth/otp_budget.go:72-118 | every reachable state of the one-time-code store and its requests satisfies the invariant the theorems below read off: each counter is exactly the requests charged to it, each issue has at most five claims and one spender, each pending row's attempts are its issue's claims |
| `OtpTheorems.FailedGuessesAreCapped` | backend/internal/modules/auth/otp_budget.go:91-118 | for every interleaving of guesses, resends and deletions, with any call failing: at most 10 failed guesses a day per caller and target, and at most 50 per target |
| `OtpTheorems.BudgetConservation` | backend/internal/modules/auth/otp_budget.go:94-118 | each guess counter equals the guesses still holding it, plus the ones that ended unsuccessfully, plus the correct ones whose refund write failed; with no failed refund there is no third term |
| `OtpTheorems.SendsAreCapped` | backend/internal/modules/auth/otp_budget.go:70-89 | codes issued for a target in a day: at most 5 per caller and 20 in all |
| `OtpTheorems.ComparisonsAreCapped` | backend/internal/modules/auth/verification.go:500-545 | at most five comparisons are ever made against one issued code, however many requests run in parallel |
| `OtpTheorems.EachIssueIsSpentOnce` | backend/internal/modules/auth/verification.go:555-577 | two accepted guesses never spent the same issued code, and each presented exactly the code it spent |
| `OtpTheorems.SuccessesNeverExceedIssues` | backend/internal/modules/auth/verification.go:555-577 | there are never more accepted guesses than issued codes |
| `OtpIssues.AClaimedGuessAddsNoOtherAttempt` | backend/internal/modules/auth/verification.go:533-577 | whatever runs from there on, a guess that has claimed an attempt of one issue never has one of another: the attempts of every other pending code are the other guesses' alone, and the issue it spends is spent by nobody else |
| `OtpIssues.DistinctCodesAreSpentByTheirOwnGuess` | backend/internal/modules/auth/verification.go:555-577 | when the codes issued to its own slot are distinct, an accepted guess spent the very issue it compared, whatever other slots were sent |
| `OtpIssues.WhenAGuessSpendsAnotherIssue` | backend/internal/modules/auth/repository/queries/verification_codes.sql:54-74 | exactly when the attribution slips, over every history: at its consume a newer issue of its own slot with the same code is pending |
| `OtpTheorems.AReissuedCodeIsSpentByAStaleGuess` | backend/internal/modules/auth/repository/queries/verification_codes.sql:54-74 | and without that it need not be: a concrete history in which a guess that compared issue 0 spends issue 1 |
| `OtpIssues.WhenAGuessClearsAnotherIssue` | backend/internal/modules/auth/verification.go:550-602 | over every history: a guess that clears its code away, for its last attempt or as expired, deletes another issue exactly when a newer one is pending in its slot by then; other slots are left alone |
| `OtpIssues.AStaleGuessDeletesANewerCode` | backend/internal/modules/auth/verification.go:587-602 | and such a history: a guess reads an expired code, a new one is issued, and the new one is deleted untried |
| `OtpTheorems.ParallelCorrectSubmissionsGiveOneSuccess` | backend/internal/modules/auth/verification.go:533-577 | two correct submissions of one code, in every interleaving with each other and with anything that leaves the code's slot alone: exactly one is accepted, the other is told there is no code or a wrong one |
| `OtpAnswers.AnAcceptedCodeWasSentToItsTarget` | backend/internal/modules/auth/verification.go:533-571 | over every history and for both kinds of slot: an accepted code was issued by a send to the very target it is accepted for, and its attempt was claimed within ten minutes of that send |
| `OtpAnswers.AWrongTargetIsAnothersCode` | backend/internal/modules/auth/verification.go:542-548 | of the guesses that got as far as the code, exactly those are told that the target is wrong whose claimed code was sent to another target |
| `OtpAnswers.EveryAnswerHasItsReason` | backend/internal/modules/auth/verification.go:520-602 | every answer of a guess, and exactly when it is given: budget spent or unavailable, no code, expired, too many attempts, wrong target, wrong code, store failure, or the code, each by what one of its calls found |
| `OtpAnswers.NobodyIsTurnedAwayFromAnOpenCode` | backend/internal/modules/auth/repository/queries/verification_codes.sql:22-52 | a guess is turned away uncompared only when it found no code, an expired one, or five attempts used |
| `OtpAnswers.ACodeIsPendingUntilItIsGone` | backend/internal/modules/auth/repository/queries/verification_codes.sql:1-74 | the pending code of a slot is the last one issued to it that has not since been presented and spent, cleared away, or deleted with its account; wrong guesses leave it |
| `OtpAnswers.OnlyTheLastAttemptClears` | backend/internal/modules/auth/verification.go:550-557 | a guess sets out to clear a code as used up only after it has spent the fifth attempt on a wrong one |
| `OtpAnswers.EverySendAnswerHasItsReason` | backend/internal/modules/auth/verification.go:408-442 | the same for sends: one must wait exactly when the pending code it read was less than a minute old, and is refused exactly at five sends of the caller or twenty of the target |
| `OtpAnswers.NoCodeIsIssuedTooSoon` | backend/internal/modules/auth/verification.go:415-421 | no code is issued by a send that did not find its slot free of a code less than a minute old |
| `OtpService.Service.VerifyAndConsume` | backend/internal/modules/auth/verification.go:520-577 | the handler (and its target-keyed twin), call by call with interference and faults, is one request of a history: what it answers is how that request ended |
| `OtpService.Service.ClaimAndConsume` | backend/internal/modules/auth/service_email.go:179-201 | claim, then compare, then consume, or say why no attempt could be claimed; the request stands where the protocol says |
| `OtpService.Service.ExplainUnclaimable` | backend/internal/modules/auth/verification.go:587-602 | an expired row is deleted and called expired, a spent one is kept and called too many attempts, a missing one is called missing |
| `OtpService.Service.TakeOtpGuess` | backend/internal/modules/auth/otp_budget.go:94-112 | the caller's allowance is charged before the target's; a refusal by the target keeps the caller's charge |
| `OtpService.Service.RefundBoth` | backend/internal/modules/auth/otp_budget.go:113-117 | both allowances are handed back in order, and a failed write does not stop the other |
| `OtpService.Service.StartVerification` | backend/internal/modules/auth/verification.go:408-442 | cooldown, then both send allowances, then a new code in the slot; the answer is how that send ended |
| `RefreshTheorems.ChainsAreDisjointLines` | backend/internal/modules/auth/service_session.go:70-132 | in every history, two tokens come from one login exactly when one leads to the other through replaced_by: the chains are disjoint and never branch |
| `RefreshTheorems.OneLiveTokenPerChain` | backend/internal/modules/auth/repository/queries/refresh_tokens.sql:12-41 | at most one token of a chain can still be refreshed |
| `RefreshTheorems.RotationIsSingleUse` | backend/internal/modules/auth/repository/queries/refresh_tokens.sql:12-41 | no two refreshes ever rotate the same token |
| `RefreshTheorems.ReplayEndsTheChainForGood` | backend/internal/modules/auth/service_session.go:44-121 | both ways into the revocation, a spent token read again and a claim lost to another refresh: once it is written, no token of that chain can ever be refreshed again, whatever ran in between and afterwards (the write being one step, see RefreshRevocation) |
| `RefreshTheorems.RevocationEndsTheChainForGood` | backend/internal/modules/auth/service_session.go:44-68 | the same from the moment of the write, for every refresh that has turned to revoking |
| `RefreshRevocation.AnUntouchedTokenIsTakenForReuseExactlyWhenClaimedLate` | backend/internal/modules/auth/service_session.go:94-121 | over whole runs: a token that is not spent and that nothing but its own refresh touches is taken for reuse exactly when it was read at or before its expiry and claimed at or after it |
| `RefreshRevocation.AnUntouchedTokenIsExpiredExactlyWhenReadLate` | backend/internal/modules/auth/service_session.go:97-101 | such a token is answered as expired exactly when it was read after its expiry, and then nothing its refresh does changes any token: no session is revoked for it |
| `RefreshTheorems.ExpiryAtTheClaimRevokesEverySession` | backend/internal/modules/auth/service_session.go:97-121 | a concrete history: a token never presented before is refreshed in the instant it expires, and every session of its user is revoked |
| `RefreshRevocation.AChainOutlivesItsRevocationExactlyThroughARotationInFlight` | backend/internal/modules/auth/repository/refresh_tokens_postgres.go:143-160 | with the revocation in two steps, the rows its snapshot finds and their write: a token of the chain can still be refreshed after the write exactly when one of its tokens was rotated in between and that child still can be at the write |
| `RefreshRevocation.WithoutARotationInFlightTheChainEnds` | backend/internal/modules/auth/repository/refresh_tokens_postgres.go:143-160 | without such a rotation every token of the chain is revoked for good, whatever else ran in between and afterwards |
| `RefreshRevocation.NothingBetweenIsOneStep` | backend/internal/modules/auth/repository/queries/refresh_tokens.sql:47-60 | with nothing in between the two steps are the one step of the protocol |
| `RefreshRevocation.ALiveTokenIsRotated` | backend/internal/modules/auth/service_session.go:70-132 | a token left live is a session that goes on: four calls later its chain has a new live token |
| `RefreshRevocation.ARotationInFlightSlipsPast` | backend/internal/modules/auth/repository/refresh_tokens_postgres.go:143-160 | a concrete history: a spent token is presented again while its child is being rotated; the new child stays live and is refreshed later |
| `RefreshOrigins.ATokenIsThereUntilRemoved` | backend/internal/modules/auth/repository/queries/refresh_tokens.sql:85-110 | every number given out has its token in the table exactly until its user is erased or a sweep finds it revoked or expired and pointed at by nothing |
| `RefreshOrigins.ATokenIsRevokedExactlyByARevocation` | backend/internal/modules/auth/repository/queries/refresh_tokens.sql:43-59 | a token is revoked exactly when somebody logged out with it or a revocation of its own user was written while it was there |
| `RefreshOrigins.ATokenIsReplacedExactlyByAClaim` | backend/internal/modules/auth/repository/queries/refresh_tokens.sql:12-41 | a token is replaced by a child exactly when a refresh presenting it claimed it, unspent and before its expiry, in the step that made that child |
| `RefreshOrigins.ATokenWasIssued` | backend/internal/modules/auth/service_session.go:104-163 | user, login and expiry of a token are those of the login that issued it, or of the token whose rotation did and that rotation |
| `RefreshOrigins.EveryAnswerHasItsReason` | backend/internal/modules/auth/service_session.go:70-132 | unknown, expired, failed and rotated: each answer is given exactly when its event occurred; a new token only after the old one was read in time, its user loaded, and its claim won |
| `RefreshService.Service.RefreshSession` | backend/internal/modules/auth/service_session.go:70-132 | the handler over the token table with interference and faults: what it answers is how its refresh ended in the history |
| `RefreshService.Service.HandleReuse` | backend/internal/modules/auth/service_session.go:44-68 | revokes every session of the user and refuses the caller whether or not the write succeeds |
| `RefreshService.Service.IssueSession` | backend/internal/modules/auth/service_session.go:143-163 | a login starts a chain of its own with one unspent token |
| `ChainSweep.LeftoversArePinned` | backend/internal/modules/auth/repository/queries/refresh_tokens.sql:85-110 | after a pass that deletes nothing, every row left is itself ineligible or has an ineligible older token in its chain |
| `ChainSweep.ClosedEligibilityPinsNothing` | backend/internal/modules/auth/sweeper.go:220-241 | pinned and ineligible are the same for every row exactly when eligibility is closed towards older tokens: exactly then a sweep that stops on an empty pass leaves no eligible row |
| `ChainSweep.LogoutLeavesAPinnedRow` | backend/internal/modules/auth/repository/queries/refresh_tokens.sql:104-108 | it is not closed in general: a session refreshed once and logged out leaves a revoked token pinned by the one it replaced |
| `ChainSweep.TokenTable.SweepExpiredRefreshTokens` | backend/internal/modules/auth/sweeper.go:212-241 | the loop ends with exactly the pinned rows left when it stops on an empty pass; its total is exactly the rows removed; no pinned or referenced row is ever removed, however it ends; it reaches its ceiling only after 50 passes that each removed something |
| `ChainSweep.ShortBatchIsTheLastExactlyWhenFlat` | backend/internal/modules/auth/sweeper.go:225-238 | stopping on a short batch leaves nothing eligible exactly when no eligible row is referenced |
| `ChainSweep.FlatTable.SweepFlat` | backend/internal/modules/auth/sweeper.go:185-203 | the two flat sweeps, which do stop on a short batch: then nothing eligible is left, and the total is exact; at the ceiling it is 50 000 |
| `Retention.PartitionsAndLocalDays` | backend/internal/modules/analytics/sweeps.go:35-44 | an instant's Colombo day is its UTC day or the next, decided at 18:30 UTC |
| `Retention.UnaggregatedDayIsWhole` | backend/internal/modules/analytics/sweeps.go:108-142 | a local day not aggregated yet has lost neither of its two partitions, so reading it sees every event ever stored for it |
| `Retention.NothingIsDroppedEarly` | backend/internal/modules/analytics/sweeps.go:108-113 | in seconds, in every history: a dropped partition's day ended at least the configured number of days ago |
| `Retention.OnlyFinishedDaysAreAggregated` | backend/internal/modules/analytics/sweeps.go:81-92 | in seconds: an aggregated day is over in Colombo; and only a partition once created is there or has gone |
| `Retention.AStoredEventStaysUntilItsDrop` | backend/internal/modules/analytics/repository/queries/analytics.sql:238-239 | a stored event is in the tables exactly until its partition is dropped, over every run that does not erase its own account |
| `Retention.AnErasedAccountHasNoEvents` | backend/internal/modules/analytics/analytics.go:393-407 | and an erased account has none, until one is stored for it again |
| `Retention.NoDayIsAggregatedFromPartialData` | backend/internal/modules/analytics/sweeps.go:81-142 | over every history of sweeps, flushes, erasures and faults, every first aggregation of a day is of all its events |
| `Retention.DroppedEventsAreAggregatedAndArchived` | backend/internal/modules/analytics/sweeps.go:115-142 | every event of a dropped partition has its local day aggregated and, if that was done once, was counted there unless it was late; with a bucket it was exported, and is in the archive unless the export that landed was cut short |
| `Retention.ADroppedDayIsArchivedExactlyWhenNotCutShort` | backend/internal/modules/analytics/sweeps.go:149-171 | after any later run too, a dropped day's archive is the same first export that landed, and it holds every row of the partition exactly when that export did not end with the bare "unexpected EOF" before its last byte |
| `Retention.CountedExactlyWhenNotLate` | backend/internal/modules/analytics/sweeps.go:81-92 | as long as nothing of its account is erased and its day is not aggregated again, an event of an aggregated day is in the aggregate exactly when it was first stored before the day was aggregated |
| `Retention.ARepeatIsWholeExactlyWhenNothingWasDropped` | backend/internal/modules/analytics/report_run.go:137-153 | aggregating a day again, as a regeneration does, leaves it whole exactly when none of the day's events is in a dropped partition |
| `Retention.AStaleListingReplacesCompleteRows` | backend/internal/modules/analytics/sweeps.go:81-92 | with two overlapping ticks it fails: a concrete history in which the tick with the stale listing aggregates a day again and replaces its complete rows with none |
| `Retention.ALateFlushIsNeverCounted` | backend/internal/modules/analytics/buffer.go:117-127 | an event received before midnight but flushed after its day was aggregated is in no aggregate |
| `Retention.ATruncatedArchiveLosesEvents` | backend/internal/modules/analytics/sweeps.go:149-171 | an export that ends in the bare "unexpected EOF" error leaves a truncated archive, and the partition is dropped |
| `RetentionSweeps.Sweeper.SweepPartitions` | backend/internal/modules/analytics/sweeps.go:62-75 | on success today and the next three days have partitions; the count is the partitions this call created; it fails only when a call does |
| `RetentionSweeps.Sweeper.SweepAggregate` | backend/internal/modules/analytics/sweeps.go:81-92 | on success every finished day that had a partition is aggregated; no aggregate is ever replaced; a failure keeps the days already done; it fails only when a call does |
| `RetentionSweeps.Sweeper.SweepRetention` | backend/internal/modules/analytics/sweeps.go:108-147 | what has gone is always a prefix of the overdue partitions, oldest first, all of them on success; each had both local days aggregated and its archive written; nothing else changes; on success every partition listed whose day ended the configured days before the call has gone, and none younger |
| `RetentionSweeps.Sweeper.Retire` | backend/internal/modules/analytics/sweeps.go:115-140 | one partition goes only after everything it needs; a failure anywhere leaves it for the next tick |
| `RetentionSweeps.Sweeper.ArchiveDay` | backend/internal/modules/analytics/sweeps.go:149-177 | retried after an upload that landed unrecorded, the create-only object is not replaced and the day is marked |
| `RetentionSweeps.Sweeper.UploadStream` | backend/internal/modules/analytics/sweeps.go:149-171 | streams the export through the upload of ChunkedUpload: what lands is what that upload's contract leaves in the bucket, for every way the export can end |
| `RetentionSweeps.Sweeper.BuildReport` | backend/internal/modules/analytics/report_run.go:69-87 | on success the report's day is aggregated, and no aggregate that was there has changed |
| `DailyReport.ClaimsAreCapped` | backend/internal/modules/analytics/repository/queries/report.sql:100-113 | at most 24 claims of a day, and the row's attempts are the claims plus the regenerations |
| `DailyReport.RegenerationPassesTheCap` | backend/internal/modules/analytics/repository/queries/report.sql:129-135 | so the row's attempts do pass 24: regenerating n times alone takes them to n |
| `DailyReport.DoneMeansDelivered` | backend/internal/modules/analytics/report_run.go:112-124 | a day marked done by a tick has every configured delivery recorded and, unless recorded by hand, made: the object is in the bucket and an email went out |
| `DailyReport.AnUploadedReportIsInTheBucketForGood` | backend/internal/modules/analytics/report_run.go:182-192 | once the row says uploaded, and nobody said so by hand, the bucket holds the day's object, and it is the same one after every later run |
| `DailyReport.AHandMarkSaysNothingAboutTheObject` | backend/internal/modules/analytics/report_run.go:137-153 | a mark by hand is about the regenerated object: with it the row can say uploaded while the day's own object is not there |
| `DailyReport.NoEmailAfterARecordedOne` | backend/internal/modules/analytics/report_run.go:157-178 | once the row records an email, and nobody recorded it by hand, no email is ever sent again over any prompt continuation, not even by ticks that claimed before |
| `DailyReport.AnEmailAfterTheRecordFollowsAHandMark` | backend/internal/modules/analytics/report_run.go:157-178 | a prompt email after the record follows a mark by hand, is of the one tick that holds the day and claimed it before the mark, and no tick had recorded one |
| `DailyReport.AHandMarkDoesNotStopATick` | backend/internal/modules/analytics/report_run.go:137-153 | and such an email does occur: the mark falls between a tick's claim and its email |
| `DailyReport.TwoEmailsExactlyWhenCrowded` | backend/internal/modules/analytics/report_run.go:157-192 | in every state of every history: the day can end with two recorded emails without anybody claiming it again exactly when two ticks each have recorded one or still may |
| `DailyReport.WhenAClaimCrowdsTheDay` | backend/internal/modules/analytics/repository/queries/report.sql:100-113 | and a claim brings that about exactly when the row records no email while some earlier tick has recorded one or still may, which can be checked as the claim is made |
| `DailyReport.TwoEmailsFollowACrowdingClaim` | backend/internal/modules/analytics/report_run.go:157-207 | over whole histories, two such ticks mean that some claim was made in that situation |
| `DailyReport.EmailsAreOneUnlessAClaimCrowds` | backend/internal/modules/analytics/report_run.go:157-192 | without such a claim the emails of a day are at most one plus those sent but not recorded, however late any step comes |
| `DailyReport.EmailsAreOneAndTheUnrecorded` | backend/internal/modules/analytics/report_run.go:157-192 | in particular when no tick acts later than 15 minutes after its claim, whatever fails or dies |
| `DailyReport.ALateFinishMailsTwice` | backend/internal/modules/analytics/report_run.go:194-207 | a concrete history of such a claim: with every other step within its sweep's budget, a failure recorded late frees the row while its successor is mailing, a third tick mails too, and both emails are recorded |
| `ReportTicks.ATickWhoseCallsSucceedDelivers` | backend/internal/modules/analytics/report_run.go:94-124 | a tick whose six calls succeed delivers, whatever runs in between: the day is marked done with every delivery on the row, its email recorded and the object in the bucket unless its claim said they were |
| `ReportTicks.ATickWhoseBuildFailedDeliversNothing` | backend/internal/modules/analytics/report_run.go:112-117 | a tick whose build failed mails, stores and records nothing and never marks the day done, over any later run |
| `ReportTicks.ADeadTickDoesNothing` | backend/internal/modules/analytics/repository/queries/report.sql:100-104 | nor does a tick that has died do anything |
| `ReportTicks.DeliveriesAreByTicksToldToMakeThem` | backend/internal/modules/analytics/report_run.go:157-192 | nothing is mailed without recipients and a mailer or by a tick told it was; the object is what the first tick to store one, told it was missing, built |
| `ReportTicks.ATickHasMailedWhenTheMailerTookIt` | backend/internal/modules/analytics/report_run.go:157-178 | a tick has mailed exactly when the mailer took its email, heard of or not, and its email is recorded exactly when the row took the record |
| `ReportTicks.ADoneDayIsNotClaimedAgain` | backend/internal/modules/analytics/repository/queries/report.sql:100-113 | a day done, by a tick or by hand, with no tick under way is never claimed again |
| `ReportTicks.AFailingDayIsTried24Times` | backend/internal/modules/analytics/report_run.go:104-111 | a day that keeps failing is claimed 24 times and then no more |
| `DailyReportService.Sweeper.SweepReport` | backend/internal/modules/analytics/report_run.go:94-124 | reports a day finished only when every configured delivery is on the row; does nothing before six or for another day, and claims a claimable day from then on; fails after its claim exactly when the build did; every call of it is a step of the history |
| `DailyReportService.Sweeper.DeliverReport` | backend/internal/modules/analytics/report_run.go:157-192 | delivers what the claim says is missing, and lists problems exactly when something did not get recorded |
| `EventBuffer.ConservationInOrder` | backend/internal/modules/analytics/buffer.go:77-167 | in every state, the accepted events are the batches handed over, then the batch, then the queue, in order and once each; every write has 1 to flushSize events, the queue at most its capacity |
| `EventBuffer.AnIdentifierHasOneRowExactlyWithinADay` | backend/internal/modules/analytics/repository/repository.go:46-50 | over every history, two rows of one event id have different received days; so an id has at most one row exactly when its stored deliveries share a day |
| `EventBuffer.ARedeliveryOnAnotherDayIsStoredTwice` | backend/cmd/monolith/analytics_wiring.go:34-35 | and redelivered on another UTC day it gets a second row: a run for any two days |
| `EventBuffer.DeletedBehindTheBarrierStaysDeleted` | backend/internal/modules/analytics/analytics.go:359-407 | once the first n events have been handed over (or the flusher has stopped) and an account's events are deleted, with the account or on opting out, no later step ever stores one of its first n events again |
| `EventRows.OtherAccountsRowsStay` | backend/internal/modules/analytics/repository/queries/analytics.sql:238-239 | a stored row stays over every run that does not delete its own account's events, whoever else is deleted; user 0 included |
| `EventRows.EveryRowWasCommitted` | backend/internal/modules/analytics/repository/repository.go:105-126 | a row was stored by a committed write of a batch with that event, its account not opted out then |
| `EventRows.ACommittedWriteStoresItsBatch` | backend/internal/modules/analytics/repository/repository.go:105-126 | a committed write leaves a row of its key for every event of the batch whose account has not opted out |
| `EventRows.AStoppedFlusherHandsNothing` | backend/internal/modules/analytics/buffer.go:150-156 | after the stop nothing more is handed over and no row is added |
| `EventRows.OptedOutByTheLastWord` | backend/internal/modules/analytics/analytics.go:359-375 | an account is opted out exactly when the last thing said about it was to opt out |
| `EventBuffer.AnEventStillQueuedLandsAfterTheDelete` | backend/internal/modules/analytics/buffer.go:98-102 | without the barrier it does: a concrete run |
| `EventBuffer.OptedOutStaysEmpty` | backend/internal/modules/analytics/analytics.go:359-387 | while an account is opted out and its rows are gone, nothing of it is stored, whatever was queued; only opting in or deletion ends that |
| `EventBufferService.Buffer.Drain` | backend/internal/modules/analytics/buffer.go:132-148 | takes exactly what was queued at its start although producers keep adding; afterwards the writer has seen exactly the events accepted by then |
| `EventBufferService.Buffer.Flush` | backend/internal/modules/analytics/buffer.go:122-128 | hands the batch over once and empties it in place; the rows handed over are a copy, so reuse of the array is not seen |
| `EventBufferService.Buffer.Run` | backend/internal/modules/analytics/buffer.go:117-167 | from start to stop: everything accepted when it was told to stop has been handed over |
| `EventBufferService.Buffer.Sync` | backend/internal/modules/analytics/buffer.go:98-113 | acknowledged: every event accepted before the call has been handed over; stopped: it never will be; expired: no promise |
| `EventBufferService.Buffer.HandleUserDeleted` | backend/internal/modules/analytics/analytics.go:393-407 | when it succeeds, no event the account had before is stored and all of them are settled, so none can come back; however it ends, every row of another account has stayed unless that account was deleted too |
| `EventBufferService.Buffer.SetConsent` | backend/internal/modules/analytics/analytics.go:359-387 | when opting out succeeds, nothing of the account is stored and the opt-out stands; the rows of every other account stay |
| `EventBufferService.Buffer.Ingest` | backend/internal/modules/analytics/analytics.go:248-288 | accepted plus dropped is the batch; the accepted ones are queued in request order, once each; an event the registry knows is dropped only by a full queue; over 50 events the batch is refused |
| `ChunkedUpload.PlanLength` | backend/internal/modules/analytics/archive.go:185-228 | a body of n bytes takes n/size + 1 requests |
| `ChunkedUpload.PlanIsContiguous` | backend/internal/modules/analytics/archive.go:189-204 | each request starts where the ones before it end and is full unless it is the last; only the last states a total, the true one |
| `ChunkedUpload.PlanReassembles` | backend/internal/modules/analytics/archive.go:185-228 | storing each payload at its stated range puts the body back together, for every length and chunk size |
| `ChunkedUpload.UploadStream` | backend/internal/modules/analytics/archive.go:149-229 | however it ends, an object the session wrote is exactly the bytes read from a body that did not break, and nothing else of the bucket has changed; stored means it was written by exactly the planned requests; already there is answered exactly for status 412 of a create-only upload; with a cooperative server it succeeds exactly when the body did not break |
| `ChunkedUpload.SendChunks` | backend/internal/modules/analytics/archive.go:180-228 | the loop with its one reused chunk: what has been sent is always a prefix of the plan |
| `ChunkedUpload.ATruncatedBodyIsReportedAsStored` | backend/internal/modules/analytics/archive.go:187-191 | a source that fails with the bare "unexpected EOF" after one byte leaves that one byte as the object and success as the answer |
| `Accounts.StoredLevelsAndLinkedInFirst` | backend/internal/modules/auth/trustlevel.go:53-72 | in every history: level 2 or more is LinkedIn, phone, email and legal name together, 3 a verified work email of a named company besides, 0 a guest; and a phone number, a legal name or a phone code ever issued implies LinkedIn |
| `AccountOrigins.EveryCellIsTheLastWritten` | backend/internal/modules/auth/repository/queries/users.sql:32-138 | every column of an account holds the last value written to it, by its creation or by the one statement for that column on that account; being a guest ends with any of them |
| `AccountOrigins.ASignInWasBoundAndACodeIssued` | backend/internal/modules/auth/identity_resolution.go:112-214 | an Apple or Google sign-in opens an account exactly when it was bound to it, and a phone code was issued exactly when one was asked for with LinkedIn connected |
| `Accounts.OneAccountEach` | backend/internal/modules/auth/identity_resolution.go:43-140 | each Apple, Google and LinkedIn subject and each address has at most one account, with only the unique indexes atomic |
| `Accounts.AKnownSubjectOpensItsFirstAccount` | backend/internal/modules/auth/identity_resolution.go:95-102 | a bound Apple or Google subject opens the account it was first bound to until that account is deleted, and never another |
| `Accounts.WhenALinkedInSubjectLosesItsAccount` | backend/internal/modules/auth/identity_resolution.go:158-188 | LinkedIn differs: an account loses a subject exactly when it is deleted or a different subject is linked to it; it never loses LinkedIn as such |
| `Accounts.WhenTheLevelDrops` | backend/internal/modules/auth/verification.go:271-306 | a level drops exactly when a work email of an unknown company, from a mailbox no other account has used, is verified on a level 3 account, and then to 2 |
| `Accounts.NothingElseLowersALevel` | backend/internal/modules/auth/trustlevel.go:53-72 | over any run of other steps, whoever takes them, no account's level drops |
| `Accounts.ACreatedAccountIsFoundAgainExactlyByItsEmail` | backend/internal/modules/auth/identity_resolution.go:112-140 | a sign-up stops between its two writes; over any run that does not work on the account: with an address, the next sign-in with it and a subject nobody took claims that account and no second one can be created; without one, no sign-in ever finds it |
| `Accounts.WhenAClaimAttaches` | backend/internal/modules/auth/accountclaim.go:279-308 | after a claim the sign-in opens the claimed account exactly when it opens no other and the account has no other subject of that provider; a sign-in attached by it ends a guest; otherwise nothing changes |
| `AccountService.Service.ResolveOrCreateLinkedIn` | backend/internal/modules/auth/identity_resolution.go:43-85 | under interference it only ever answers with an account the subject opens; run alone it agrees with the state it began in, and refuses nobody unless a statement fails |
| `AccountService.Service.ResolveOrCreateAppleGoogle` | backend/internal/modules/auth/identity_resolution.go:87-140 | the same over the identity rows, including the create-then-bind sequence; run alone it is refused only by a failing statement |
| `AccountService.Service.LinkIdentityToUser` | backend/internal/modules/auth/identity_resolution.go:152-214 | on success the sign-in opens the account, which is no guest; a sign-in of another account is refused and changes nothing; run alone without failures it succeeds exactly when nothing is in the way |
| `AccountService.Service.SignUpOrRecoverWithEmail` | backend/internal/modules/auth/identity_resolution.go:249-285 | answers only with an account that has the address, recovered or new; run alone without failures, recovered exactly when there is one |
| `AccountService.Service.ClaimIfEmailTaken` | backend/internal/modules/auth/accountclaim.go:320-334 | a claim is asked for exactly when some account has the non-empty address |
| `AccountService.Service.AttachClaimedIdentity` | backend/internal/modules/auth/accountclaim.go:279-308 | under interference: attached means that the sign-in opens the account, a conflict that something is in the way, and a LinkedIn connection is left exactly when there was one; alone and without failures it attaches exactly when nothing is in the way, leaving the state WhenAClaimAttaches describes |
| `AccountService.Service.CompleteAccountClaim` | backend/internal/modules/auth/accountclaim.go:222-260 | hands over an account that exists; an Apple or Google sign-in that was attached still opens it when the session is issued, otherwise something was in the way; alone, it is the account with the ticket's address, and without failures it is handed over exactly when there is one |
| `AccountService.Service.StartPhoneVerification` | backend/internal/modules/auth/verification.go:82-97 | a phone code is issued only to an account that has LinkedIn at that moment, although the check and the write are apart; alone and without failures, to exactly those |
| `AccountService.Service.VerifyPhoneCode` | backend/internal/modules/auth/verification.go:101-123 | a verified phone number is on an account with LinkedIn and its recomputed level, with no check of LinkedIn here; the level says what the account then has |
| `AccountService.Service.SubmitPersonalDetails` | backend/internal/modules/auth/verification.go:163-188 | a legal name is only ever stored on an account with LinkedIn |
| `AccountService.Service.VerifyCorporateEmail` | backend/internal/modules/auth/verification.go:244-310 | a mailbox that verified another account is refused, here or by the index; level 3 only for a known company; a mismatch stores nothing; alone and without failures everything else is stored |
| `AccountService.Service.GuestSignup` | backend/internal/modules/auth/guest.go:113-139 | a guest starts at level 0 |
| `ClaimTicket.AMintedTicketParses` | backend/internal/modules/auth/accountclaim.go:95-164 | a minted ticket parses to exactly its email, provider and subject, or not at all; and it does exactly until its expiry in whole seconds, if none of them is empty |
| `ClaimTicket.AnIssuedSignatureCarriesOnlyItsClaim` | backend/internal/modules/auth/accountclaim.go:131-164 | a ticket put together around a signature issued for one claim is accepted exactly when its body is the one signed and the claim still stands, and then says just that claim |
| `ClaimTicket.AcceptedTicketsWereMinted` | backend/internal/modules/auth/accountclaim.go:95-164 | when every signature in circulation was issued, every accepted ticket says one of the issued claims, within its lifetime |
| `ClaimTicket.HexRoundTrip` | backend/internal/modules/auth/accountclaim.go:113-139 | the signature survives its hexadecimal form |
| `ClaimTicket.HexInEitherCase` | backend/internal/modules/auth/accountclaim.go:113-139 | and reads the same in either case of its digits |
| `ClaimTicket.CutAtTheFirstDot` | backend/internal/modules/auth/accountclaim.go:132-135 | the first dot is the separator, whatever follows it |
| `OrderGuardedCache.TimestampsNeverDecrease` | backend/internal/modules/meetup/repository/queries/user_display_cache.sql:10-17 | a row's timestamp never goes back, and with an equal one the row is the same |
| `OrderGuardedCache.DeliveriesConverge` | backend/cmd/monolith/subscriptions.go:30-64 | any two deliveries of the same events, reordered, repeated or mixed with backfill rows, leave the same cache when the newest events of each account agree |
| `OrderGuardedCache.ConvergesExactlyWhenConsistent` | backend/internal/modules/meetup/repository/queries/user_location_cache.sql:6-12 | and only then: all deliveries agree exactly when the newest events of each account carry equal payloads |
| `OrderGuardedCache.AStoppedRunAndAWholeOne` | backend/cmd/backfill-user-display-cache/main.go:99-160 | a run stopped after any prefix and then run again ends as one whole run does |
| `OrderGuardedCache.Cache.Run` | backend/cmd/backfill-user-display-cache/main.go:60-177 | a completed run has total = applied + skipped, the applied ones being exactly the strictly newer; what has been committed is whole batches; a dry run writes nothing; a batch size of zero or less is refused; it completes unless a statement fails |
| `OrderGuardedCache.Cache.FlushPending` | backend/cmd/backfill-user-location-cache/main.go:114-158 | one batch commits whole or not at all, and its counts are exact |
| `ScheduledWork.RunScheduledWork` | backend/internal/grpcapi/ops.go:130-198 | one result per sweep of the group, told by its place in the list, in order while the caller is there; the failed count is exact; skipped sweeps are a suffix; no sweep is given time past the reply margin; the work ends by max(start, deadline - margin), plus a sweep's lateness; when the budgets fit, none is skipped or cut |
| `ScheduledWork.TheAnalyticsTickFits` | backend/cmd/monolith/main.go:657-664 | three 120-second sweeps under a 480-second tick fit, even when each returns a reply margin late |
| `LocalSearch.AnsweredAtMostOnce` | frontend/ios/Runner/LocalSearchChannel.swift:57-111 | in every run each result is invoked at most once, and at most one call is waiting, the newest, with the current generation |
| `LocalSearch.EveryCallIsAnswered` | frontend/ios/Runner/LocalSearchChannel.swift:75-103 | every call is answered, once and for good, as soon as a callback, a newer call or its own watchdog occurs |
| `LocalSearch.AWatchdogSettlesOnlyItsOwnCall` | frontend/ios/Runner/LocalSearchChannel.swift:99-103 | a watchdog answers no call but its own, and only one nothing else has answered |
| `LocalSearch.AWaitingCallIsToldTheLatest` | frontend/ios/Runner/LocalSearchChannel.swift:75-111 | whatever settles a waiting call, it is told the completer's last report up to then: an update's own list, nothing after a failure |
| `LocalSearch.ANewCallWaitsExactlyForANewText` | frontend/ios/Runner/LocalSearchChannel.swift:57-97 | a new call is answered at once exactly when it repeats the last text, and waits otherwise; one with bad arguments is told so and disturbs nothing |
| `LocalSearch.Channel.HandleAutocomplete` | frontend/ios/Runner/LocalSearchChannel.swift:57-104 | a call left waiting is the newest and has its watchdog started; a repeated fragment is answered at once; bad arguments are answered and disturb nothing |
| `LocalSearch.Channel.CompleterDidUpdateResults` | frontend/ios/Runner/LocalSearchChannel.swift:171-174 | hands the new results to the call still waiting |
| `RequestKeys.TheCallerCannotChooseTheClientIP` | backend/internal/gateway/middleware/ratelimit.go:447-468 | behind at least as many proxies as are trusted, each appending its entry in any line form with any blanks around it, the client address is what the outermost trusted one saw, whatever the caller put in X-Forwarded-For |
| `RequestKeys.WithTooFewProxiesTheClientIsThePeer` | backend/internal/gateway/middleware/ratelimit.go:447-468 | with no proxy trusted the header is not looked at, and with fewer entries than trusted proxies it is not believed: the client is the TCP peer |
| `RequestKeys.BlankPartsAreIgnored` | backend/internal/gateway/middleware/ratelimit.go:451-455 | a part of a line that is blank is no entry |
| `RequestKeys.ResolveClientIP` | backend/internal/gateway/middleware/ratelimit.go:447-468 | the loops over header lines and their parts compute that address |
| `RequestKeys.TheOneMatchDecodes` | backend/internal/gateway/middleware/ratelimit.go:279-290 | where no key repeats in any case, the one matching entry is what a case-insensitive decoder reads |
| `RequestKeys.LowerTellsKeysApart` | backend/internal/gateway/middleware/ratelimit.go:312-325 | two keys fold to the same one exactly when they differ at most in the case of their letters |
| `RequestKeys.PeekRequestField` | backend/internal/gateway/middleware/ratelimit.go:295-332 | answers as the handler will decode the body, refuses exactly the bodies whose keys repeat, and leaves the whole body unread |

## Left out

- The SQL, driver and transaction layers: each statement is atomic and has the effect its query states. The family revocation is one step in the protocol and two in RefreshRevocation; other statements over many rows are one step.
- A write that fails for its caller and commits only after the call has returned; a write that fails and had committed by then is modelled.
- The one-time-code bypass lists and the budget exemptions: both are taken to be empty. Budget days do not roll over: one day is fixed. Delivery of the code by mail or SMS is not modelled.
- Cryptography, JSON, base64url, gzip and random generation: hashes and signatures are collision-free, an export is the plain lines of its rows, codes are numbers, the ticket's codec is assumed to round-trip, and the address and JSON parsers are parameters.
- Input shape rules: email, phone and company normalisation, and length limits of details. Verified subjects, phone numbers and addresses are taken to be non-empty, as their callers make sure.
- Account photos, names, locations and safety rows; the abandoned-guest rule (deletion of any account at any moment is a step); the order of the sweeper's tick.
- The rate limiter's counters, gRPC and HTTP adapters, configuration, wiring, telemetry, billing, meetups, and the user interface apart from the autocomplete channel.
- RefreshTheorems.ReplayEndsTheChainForGood: the revocation is one step; RefreshRevocation.AChainOutlivesItsRevocationExactlyThroughARotationInFlight says exactly what it misses when it is two.
- RefreshTheorems.RevocationEndsTheChainForGood: the same.
- ChainSweep.TokenTable.SweepExpiredRefreshTokens: no login, logout or refresh runs between its passes; the interleaving of deletions with refreshes is part of RefreshTokens, whose theorems include the step that deletes one row.
- Retention.NoDayIsAggregatedFromPartialData: sweeps of two ticks do not overlap, and events are flushed within the retention. Regeneration, which reads a day again, is covered by Retention.ARepeatIsWholeExactlyWhenNothingWasDropped.
- RetentionSweeps.Sweeper.UploadStream: nobody else writes the day's object meanwhile; compression is left out, so a stream that ends with the bare error after its very last byte counts as whole.
- RetentionSweeps.Sweeper.SweepRetention: the retention of the activity rows is a call that may fail, nothing more.
- DailyReport.ClaimsAreCapped: one day's row; rows of different days do not meet. What the workbook contains is not modelled.
- EventBufferService.Buffer.HandleUserDeleted: the service is taken to be enabled, and the call and its delete share one context, as in the source.
- EventBufferService.Buffer.SetConsent: the opt-out stands as long as no other consent call or deletion of the same account runs meanwhile.
- ChunkedUpload.UploadStream: 308 means that the whole chunk is stored; a partly stored chunk is not modelled. The single-request upload and the access token's cache are left out.
- AccountService.Service.Execute: one method stands for the statements of the user and identity repositories, each a step of the account model.
- OrderGuardedCache.Cache.Run: a batch is one step for other writers, and deletion of a cached row is left out.
- ScheduledWork.RunScheduledWork: the loop itself takes no time; a sweep may return late by a stated bound.
- RequestKeys.ResolveClientIP: blanks are space, tab, carriage return and line feed; other Unicode spaces are not modelled.
- RequestKeys.PeekRequestField: upper and lower case are those of ASCII letters; folding of other letters is not modelled.
