# Verification of the learning platform's transactional core

A Dafny model of the parts of the Django backend that keep state under concurrency, retries and
recomputation, with proofs of what they promise. Every pure computation is a function; every service
that updates rows in loops is a class whose methods are proved against those functions; every
statement about histories is a lemma over arbitrary sequences of steps. The `Outcomes` modules say what
each operation accepts and stores in terms of the stored data alone, without the functions that compute
it. `dafny verify dfyconfig.toml` checks the project.

| area | files |
|---|---|
| account email worker: leases, fencing numbers, backoff | `EmailDelivery`, `EmailDeliveryRuns`, `EmailWorker` |
| rate limiter: ordered locks, sliding windows | `RateLimits`, `RateLimitProtocol` |
| assessment attempts: state machine, autosave, scoring | `AttemptScoring`, `AssessmentAttempts`, `AttemptRuns`, `AttemptOutcomes`, `Autosave`, `OverlappingStart`, `AttemptDesk` |
| one-time tokens and deletion requests | `AccountTokens`, `AccountTokenRuns`, `AccountOutcomes`, `AccountDesk` |
| personal-data boundary and erasure loop | `PersonalData`, `Erasure` |
| daily analytics and rebuild | `Analytics`, `AnalyticsRebuild`, `AnalyticsOutcomes` |
| achievements and catalog | `Achievements`, `AchievementRuns`, `AchievementOutcomes`, `AchievementDesk` |
| object cache | `ObjectCache`, `ObjectCacheRuns`, `ObjectCacheOutcomes`, `ObjectCacheWorker` |
| ranged streaming and the forward-only reader | `Storage` |
| quiz review workflow and search entry | `QuizWorkflow`, `QuizRuns`, `QuizOutcomes` |
| scoped analytics and drill-down | `TreePaths`, `ScopeAnalytics`, `ScopeDrillDown`, `ScopeOutcomes` |

Time is an integer supplied with each step. Policies, permissions, random selection, provider
answers, file-system outcomes and mail-server outcomes are parameters of the steps, so every result
holds for all of them. Cryptographic digests are either distinct values or an arbitrary function.

## What the proofs found

- A reservation that lists one bucket twice passes one check and inserts two rows, so it can exceed
  the bucket's limit by one. The limit holds exactly when every list names a bucket at most once
  (`RateLimits.LimitHoldsIffBucketNamedOnce`).
- The eviction's running total ignores a file that another process deleted between the scan and the
  deletion, so it may then delete more than needed; refused deletions keep it exact
  (`ObjectCache.RunningTotalIsExact`, `ObjectCache.DeletesOnlyWhatItMustIff`).
- A length that is not positive, or a start at or past the end, makes a provider range differ from a
  local read (`Storage.LocalAndRemoteAgreeIff`); an empty piece followed by another would end the
  forward-only reader early (`Storage.ReaderIsExactIff`), which `stream` never causes.
- Personal models that have their own ownership field are selected by that field alone
  (`PersonalData.OwnedModelsSelectByOwnershipOnly`).
- Rows that name the user under another field name are not selected by it, so the boundary covers every
  row that names the user exactly when all such fields have ownership names
  (`PersonalData.EveryMentionIsSelectedIff`). Two models use `account`: rescue receipts are never found,
  and rescue sessions only through the focus session they continued into
  (`PersonalData.ReceiptsAreNeverFound`, `PersonalData.UncontinuedSessionsAreMissed`).
- A child row is selected exactly when it leads to a row naming the user through parents whose models
  were found in strictly earlier rounds (`PersonalData.SelectedIff`).
- A rebuild changes a pair's first event exactly when its first recorded fact is not its earliest one's
  event (`AnalyticsRebuild.FirstEventIsKeptIff`).
- Students of a cohort with content under two sibling scopes appear in both breakdown rows
  (`ScopeDrillDown.PeopleAddUpIff`). Content does exactly when one listed node lies below another,
  which the hierarchy does not rule out: a college within a college
  (`ScopeDrillDown.BreakdownAddsUpIff`, `ScopeDrillDown.NestedCollegesCountTwice`). Such nesting also
  counts a specialty twice (`ScopeDrillDown.CountsAreOfDistinctNodesIff`).
- Autosave depends on the order of arrival exactly when the highest revision sent for a question is
  above the stored one and carries two selections (`Autosave.ConvergesIff`).
- A start finalises a late attempt without its row lock, so a save that commits between the scoring and
  the write is stored but not scored (`OverlappingStart.ScoredAnswersAreStoredIff`).
- A start finalises a late attempt exactly when it passes every check that follows; a refused one is
  rolled back or raises earlier, and the attempt stays active (`AttemptRuns.LateStartFinalisesIff`).
- A start that overlaps two saves can leave an answer stamped above its attempt's revision
  (`OverlappingStart.RevisionCoversStampsIff`).
- An administrator's status form accepts every status. Exactly two uses part an account's status from its
  requests: any status but deleted for an erased account, and deleted for one whose deletion is under way
  (`AccountTokenRuns.StatusDisagreesIff`, `AccountTokenRuns.ErasedAccountsCanBeRevived`,
  `AccountTokenRuns.DeletionCanBeForcedEarly`).

## Model

| member | source | states |
|---|---|---|
| `EmailDelivery.DelayDoublesUpToAnHour` | backend/apps/accounts/email_delivery.py:175-176 | the backoff starts at half a minute, doubles with each attempt and stops at an hour |
| `EmailDeliveryRuns.RunsRefineTheAutomaton` | backend/apps/accounts/email_delivery.py:190-282 | in every interleaving of enqueueing, claims, sends, crashes, late recordings, token spending and row deletion, a delivery's history is accepted by a reference automaton that knows nothing of rows or leases, and the stored row is exactly what that history says |
| `EmailDeliveryRuns.EachAttemptHasExactlyOneClaim` | backend/apps/accounts/email_delivery.py:203-228 | the attempt numbers claimed are exactly 1 to the stored `attempts`, each by exactly one claim |
| `EmailDeliveryRuns.ClaimsIncrease` | backend/apps/accounts/email_delivery.py:218-221 | a later claim of a delivery always carries a larger attempt number |
| `EmailDeliveryRuns.CurrentHolderIsUnique` | backend/apps/accounts/email_delivery.py:238-243 | two workers never both hold the current attempt of a row being sent |
| `EmailDeliveryRuns.OnlyTheHolderDecides` | backend/apps/accounts/email_delivery.py:203-270 | a SENDING row changes only by a claim after its lease ran out, or by the worker that made the latest claim recording its outcome; a slower worker is ignored |
| `EmailDeliveryRuns.TerminalRowsStay` | backend/apps/accounts/email_delivery.py:203-209 | SENT and FAILED rows never change again in any continuation of any run |
| `EmailDeliveryRuns.SentHasAReceipt` | backend/apps/accounts/email_delivery.py:262-282 | a delivery marked SENT has an acceptance by the worker holding the stored attempt, as the last thing in its history |
| `EmailDeliveryRuns.RetriesAreBounded` | backend/apps/accounts/email_delivery.py:20-21 | `attempts` is at most five plus the number of lease takeovers, at most five failures are recorded, and without takeovers five claims end with the last worker or a terminal row |
| `EmailDeliveryRuns.ClaimsAreSpaced` | backend/apps/accounts/email_delivery.py:218-256 | a takeover comes no sooner than the lease, a retry after recorded failure n no sooner than its backoff, nothing after a terminal outcome |
| `EmailDeliveryRuns.SpentCodesAreNeverSent` | backend/apps/accounts/email_delivery.py:210-216 | once a token is used or revoked, no continuation of the run claims its delivery |
| `EmailDeliveryRuns.ExpiredCodesAreNeverSent` | backend/apps/accounts/email_delivery.py:210-216 | every claim is made before the token expires |
| `EmailDeliveryRuns.UnfinishedDeliveriesAreRecoverable` | backend/apps/accounts/email_delivery.py:190-228 | an unfinished delivery becomes due within an hour of its last event, and from then on any idle worker takes it over under the next number or closes it as stale |
| `EmailDeliveryRuns.FailureIsFinalIff` | backend/apps/accounts/email_delivery.py:230-256 | a failure recorded by the holder is final exactly at the fifth attempt or later, or when a recipient or the message was refused with a reply in the five hundreds; any other is retried after 30, 60, 120 or 240 seconds |
| `EmailDeliveryRuns.ClaimOutcome` | backend/apps/accounts/email_delivery.py:203-221 | a claim leaves finished and undue rows alone, closes one whose token was used or has expired, and otherwise takes the next attempt with a lease of 300 seconds |
| `EmailDeliveryRuns.OutcomeOfASend` | backend/apps/accounts/email_delivery.py:262-282 | an accepted send is recorded by the holder, and anyone else's outcome changes no row |
| `EmailDeliveryRuns.EnqueuedDelivery` | backend/apps/accounts/email_delivery.py:165-173 | a new code is queued at once, unclaimed, with its token |
| `EmailWorker.EmailQueue.SelectDue` | backend/apps/accounts/email_delivery.py:185-196 | the candidates are the `limit` due rows that have been due longest, soonest first, each once |
| `EmailWorker.EmailQueue.DispatchOne` | backend/apps/accounts/email_delivery.py:198-282 | one candidate's turn: skipped when its row is locked, otherwise claimed or not, and a won claim always brought to a recorded send or to the end of a call whose row is gone, with anything else happening in between; a run of the step model |
| `EmailWorker.EmailQueue.DispatchDue` | backend/apps/accounts/email_delivery.py:179-287 | the worker's whole call takes the longest waiting due rows, gives each its turn unless a row vanishes under it, is a run of the step model made of these turns, leaves nothing in flight, and returns exactly the number of messages it got accepted |
| `RateLimits.ReservationKeepsLimit` | backend/apps/accounts/rate_limits.py:43-60 | a reservation naming a bucket at most once keeps every interval of the window's length within the bucket's limit |
| `RateLimits.LimitHoldsIffBucketNamedOnce` | backend/apps/accounts/rate_limits.py:43-60 | on every table and at every time the bound is kept if and only if the list of budgets names the bucket at most once: both rows of a repeated bucket are inserted after one check |
| `RateLimits.NamingABucketTwiceBreaksLimit` | backend/apps/accounts/rate_limits.py:43-60 | the concrete table on which a repeated bucket goes over its limit |
| `RateLimits.GrantAddsExactlyWhatWasAsked` | backend/apps/accounts/rate_limits.py:43-60 | a refusal adds nothing; a grant adds to every bucket exactly as many rows as it is named, all at the checked time |
| `RateLimits.AdmissionIsByPositions` | backend/apps/accounts/rate_limits.py:43-52 | admission counted by row positions |
| `RateLimits.AttemptTable.Reserve` | backend/apps/accounts/rate_limits.py:21-60 | granted exactly when every listed bucket has fewer stored attempts than its limit since its window began; then one row is added for each at the checked time, otherwise nothing changes |
| `RateLimitProtocol.KeysAreSortedAndComplete` | backend/apps/accounts/rate_limits.py:26-41 | the advisory keys are deduplicated, strictly ascending, and exactly those of the listed buckets |
| `RateLimitProtocol.ReservationsAreAtomic` | backend/apps/accounts/rate_limits.py:21-60 | interleaved lock, clock, check, insert and commit steps of any number of transactions change the table as whole reservations run one at a time would, and refuse only where such a reservation would |
| `RateLimitProtocol.LimitHoldsInEveryRun` | backend/apps/accounts/rate_limits.py:21-60 | in every interleaving no interval of a bucket's window holds more stored attempts than its limit, even if clocks run backwards |
| `RateLimitProtocol.NoWindowHoldsMore` | backend/apps/accounts/rate_limits.py:21-60 | the same bound counted by row positions |
| `RateLimitProtocol.CheckRefusesIff` | backend/apps/accounts/rate_limits.py:43-52 | in every reachable state a check refuses exactly when its bucket has at least its limit of committed rows since its window began |
| `RateLimitProtocol.CommitAppends` | backend/apps/accounts/rate_limits.py:53-60 | a commit appends one row for each listed budget, in order, at the checked time |
| `RateLimitProtocol.CommitHasRoom` | backend/apps/accounts/rate_limits.py:43-60 | and happens only while every listed bucket has room |
| `RateLimitProtocol.SomeoneCanRun` | backend/apps/accounts/rate_limits.py:26-41 | following who waits for whom climbs the keys and ends at a transaction that is not blocked |
| `RateLimitProtocol.OwnStepsShrinkWork` | backend/apps/accounts/rate_limits.py:26-60 | every effective step of an unfinished transaction shrinks a measure of the work left |
| `RateLimitProtocol.EveryRunCanFinish` | backend/apps/accounts/rate_limits.py:26-60 | from every state of the invariant all transactions finish within that measure, with no abort |
| `RateLimitProtocol.NoReachableDeadlock` | backend/apps/accounts/rate_limits.py:26-41 | no reachable state has all unfinished reservations blocked |
| `AttemptScoring.PercentageIsNearest` | backend/apps/assessments/attempt_services.py:437-530 | the percentage is the hundredth nearest to the exact ratio, halves up |
| `AttemptScoring.ScoreAtMostMaximum` | backend/apps/assessments/attempt_services.py:437-530 | the score is at most the maximum, and equals it exactly when every question that carries points is right |
| `AttemptScoring.ResultsAreConsistent` | backend/apps/assessments/attempt_services.py:437-530 | every result has a percentage within 0 to 100, counts that add up to the number of questions, and a verdict that follows the pass mark |
| `AttemptScoring.ScoringIgnoresOrder` | backend/apps/assessments/attempt_services.py:437-530 | the result depends on which options are chosen, not on their order or on revisions |
| `AttemptScoring.OneQuestionMore` | backend/apps/assessments/attempt_services.py:452-460 | a question adds its points exactly when the chosen options are the correct ones, all of them and no other, and counts as answered when anything is chosen |
| `AttemptScoring.AnsweredAreThePositions` | backend/apps/assessments/attempt_services.py:452-456 | the answered questions are those with a selection that is not empty |
| `AttemptScoring.PercentageIsOfTheScore` | backend/apps/assessments/attempt_services.py:461-465 | the percentage of a result is that of its own score, and decides the verdict |
| `AttemptScoring.ScoreAttempt` | backend/apps/assessments/attempt_services.py:437-530 | the accumulation loop computes that result |
| `AttemptRuns.EveryRunIsSound` | backend/apps/assessments/attempt_services.py:188-603 | with calls one at a time: one active attempt per user and quiz; active exactly while there is no result; the stored result always equals a rescoring of the stored answers; expired exactly when completed at or after the deadline |
| `AttemptRuns.RetryLimitBoundsAttempts` | backend/apps/assessments/attempt_services.py:225-252 | a fixed positive retry limit bounds all of a user's attempts at a quiz, the active one included |
| `AttemptRuns.ResultsAreForever` | backend/apps/assessments/attempt_services.py:437-460 | a stored result and the answers it was scored from never change |
| `AttemptRuns.EverySubmissionGetsTheSameResult` | backend/apps/assessments/attempt_services.py:532-580 | whatever keys and times, all successful submissions of an attempt reply with one result |
| `AttemptRuns.SubmissionReplays` | backend/apps/assessments/attempt_services.py:532-580 | repeating a submission with its key, after anything else, replays the reply and writes nothing |
| `AttemptRuns.StartReplays` | backend/apps/assessments/attempt_services.py:188-224 | repeating a start with its key answers with the attempt it created, whatever happened in between |
| `AttemptRuns.AnswersChangeOnlyInTime` | backend/apps/assessments/attempt_services.py:297-388 | a stored answer changes only when its owner saves it while the attempt is active and before the deadline |
| `AttemptRuns.LateCallsAreFinalisedLater` | backend/apps/assessments/attempt_services.py:321-323 | a late save or resume raises and leaves the store as it was; a refresh, a submission or a start with the attempt's own key finalises it as expired |
| `AttemptRuns.LateStartFinalisesIff` | backend/apps/assessments/attempt_services.py:203-252 | any start by the owner on the quiz finalises the late attempt if and only if its key is the attempt's own, or is new and the quiz is open, another attempt is within the retry limit once this one counts, and the filters and selection are allowed; otherwise nothing changes |
| `AttemptOutcomes.SaveIsAcceptedIff` | backend/apps/assessments/attempt_services.py:297-362 | a save is accepted exactly for the owner of an active attempt in time, for one of its questions, with distinct options of it, one at most unless several may be chosen, under a revision above the stored one or a repetition of it |
| `AttemptOutcomes.SaveWrites` | backend/apps/assessments/attempt_services.py:363-388 | an accepted save stores its selection, revisions and time and changes nothing else |
| `AttemptOutcomes.HighestPositionWins` | backend/apps/assessments/attempt_services.py:418-434 | after any positions in any order the stored one carries the highest revision sent for a question of the attempt |
| `AttemptOutcomes.ResumeWrites` | backend/apps/assessments/attempt_services.py:391-434 | which positions are accepted and what they store |
| `AttemptOutcomes.SubmissionFinishes` | backend/apps/assessments/attempt_services.py:532-580 | a submission writes the result once, the status by the deadline, and the receipt |
| `AttemptOutcomes.RefreshFinishesIff` | backend/apps/assessments/attempt_services.py:582-603 | a refresh finishes an active attempt exactly when its time has run out |
| `AttemptOutcomes.FreshStartIsAcceptedIff` | backend/apps/assessments/attempt_services.py:212-252 | with nothing active and a new key a start is accepted exactly when the quiz is published and open, the retry limit is not reached, the filters are allowed and questions could be selected |
| `AttemptOutcomes.FreshStartStores` | backend/apps/assessments/attempt_services.py:253-284 | it stores the selected questions unanswered, one point each, and the deadline |
| `AttemptOutcomes.StartResumes` | backend/apps/assessments/attempt_services.py:214-218 | a start that finds an attempt in time answers with it and changes nothing |
| `Autosave.HighestRevisionWins` | backend/apps/assessments/attempt_services.py:343-377 | after any list of valid saves the stored selection and revision are those of the highest revision sent, unless one at least as high was stored already |
| `Autosave.AutosaveConverges` | backend/apps/assessments/attempt_services.py:343-377 | every order and duplication of one set of valid saves stores the same selection and client revision |
| `Autosave.ConvergesIff` | backend/apps/assessments/attempt_services.py:343-377 | without that premise: every reordering of valid saves stores the same for a question if and only if nothing sent is above what is stored, or all saves with the highest revision carry one selection |
| `Autosave.OneRevisionTwoSelectionsDiverge` | backend/apps/assessments/attempt_services.py:343-377 | the smallest run that diverges: two selections under one revision of an unanswered question |
| `Autosave.ReplaysChangeNothing` | backend/apps/assessments/attempt_services.py:343-377 | sending an accepted save again, at any later time and after any further saves, changes nothing; it is accepted exactly while its revision is still the stored one |
| `Autosave.ServerRevisionsIncrease` | backend/apps/assessments/attempt_services.py:343-377 | written saves get distinct, strictly increasing server revisions across all questions |
| `Autosave.WrittenSaveIsStamped` | backend/apps/assessments/attempt_services.py:343-377 | a written save stamps its own answer with the new revision and touches no other answer |
| `Autosave.StoredAttemptsConverge` | backend/apps/assessments/attempt_services.py:297-388 | convergence of the stored attempts in the whole state machine, and of the scores later given to them |
| `OverlappingStart.ScoredAnswersAreStoredIff` | backend/apps/assessments/attempt_services.py:214-219 | with saves committing while a start finalises a late attempt without its lock: the answers scored are the answers that stay stored if and only if no save committed a change between the scoring and the write |
| `OverlappingStart.ResultIsARescoringWithoutOverlap` | backend/apps/assessments/attempt_services.py:437-480 | then the result is a rescoring of the stored answers |
| `OverlappingStart.ResultIsARescoringIff` | backend/apps/assessments/attempt_services.py:437-480 | in every run the result is a rescoring of the stored answers if and only if the answers scored and those that stayed have the same score and are equally many |
| `OverlappingStart.RevisionCoversStampsIff` | backend/apps/assessments/attempt_services.py:467-470 | the written-back revision covers the stamps of all stored answers if and only if no answer was stored since the start read the attempt other than as the first write |
| `OverlappingStart.AnOverlappingSaveIsNotScored` | backend/apps/assessments/attempt_services.py:437-480 | a run in which a correct answer saved in time is stored but scored as missing |
| `AttemptDesk.Desk.FinalizeAttempt` | backend/apps/assessments/attempt_services.py:437-530 | finalising in place: the result and status are written once |
| `AttemptDesk.Desk.StartAttempt` | backend/apps/assessments/attempt_services.py:188-284 | the start operation in place, with replay, resumption, expiry of a late attempt and roll-back |
| `AttemptDesk.Desk.SaveAnswer` | backend/apps/assessments/attempt_services.py:297-388 | the autosave operation in place |
| `AttemptDesk.Desk.SaveAttemptResume` | backend/apps/assessments/attempt_services.py:391-434 | the resume-position operation in place |
| `AttemptDesk.Desk.SubmitAttempt` | backend/apps/assessments/attempt_services.py:532-580 | the submission in place, with receipts |
| `AttemptDesk.Desk.RefreshAttemptState` | backend/apps/assessments/attempt_services.py:582-603 | the refresh in place |
| `AccountTokenRuns.EveryHistoryIsSound` | backend/apps/accounts/services.py:183-660 | at most one unused token per kind, at most one pending, confirmed or processing deletion request, and every unused deletion token belongs to a pending request; without a harmful form a completed request means a deleted account |
| `AccountTokenRuns.StatusDisagreesIff` | backend/apps/admin_control/services.py:470-497 | exactly one kind of step parts an account's status from its requests: an accepted form that deletes an account with a live request, or gives one with a completed request any other status |
| `AccountTokenRuns.StatusAgreesThroughoutIff` | backend/apps/admin_control/services.py:470-497 | a status agrees with the requests throughout a run if and only if the run has no such form |
| `AccountTokenRuns.ErasedAccountsCanBeRevived` | backend/apps/admin_control/services.py:470-497 | a run from registration in which an erased account is made active again |
| `AccountTokenRuns.DeletionCanBeForcedEarly` | backend/apps/admin_control/services.py:470-497 | a run in which an account is deleted while its deletion still waits to be confirmed |
| `AccountTokenRuns.CodesAreBounded` | backend/apps/accounts/services.py:290-352 | a verification code takes at most one success and at most five counted wrong guesses, never both a success and five guesses |
| `AccountTokenRuns.DeadTokensStayDead` | backend/apps/accounts/services.py:183-207 | a used, burned or replaced token never succeeds or takes a guess again |
| `AccountTokenRuns.ExpiredTokensStayDead` | backend/apps/accounts/services.py:290-352 | nor does an expired one |
| `AccountTokenRuns.VerifiesExactlyTheLiveCode` | backend/apps/accounts/services.py:290-352 | a code verifies the address exactly when it is the account's live code; otherwise a wrong guess is counted exactly when there is a live code |
| `AccountTokenRuns.FailureReasonIsExact` | backend/apps/accounts/services.py:355-381 | the failure reason tells the fate of the submitted code exactly |
| `AccountTokenRuns.OneQueuedEmailIsUsable` | backend/apps/accounts/email_delivery.py:210-216 | of the emails queued for an account and kind at most one passes the worker's usability check at any instant |
| `AccountTokenRuns.UsableDeletionLinksConfirm` | backend/apps/accounts/services.py:559-595 | a deletion link confirms exactly when its token is usable: no usable token lacks its pending request |
| `AccountTokenRuns.FinalRequestsStay` | backend/apps/accounts/services.py:598-640 | CANCELLED and COMPLETED are never left, and requests are never removed or reordered |
| `AccountTokenRuns.CredentialChangesRevokeEverything` | backend/apps/accounts/services.py:442-506 | after a reset, an email change, a password change or the start of an erasure no token is usable at any later time |
| `AccountTokenRuns.BeginDeletionKeepsInv` | backend/apps/accounts/deletion_processing.py:94-148 | beginning an erasure keeps the account invariant |
| `AccountTokenRuns.EraseKeepsInv` | backend/apps/accounts/deletion_processing.py:151-260 | completing an erasure keeps the account invariant, with the confirmation tokens kept as evidence |
| `AccountOutcomes.ErasureOutcome` | backend/apps/accounts/deletion_processing.py:151-244 | an erasure completes exactly an approved request in progress whose records could be removed; then the account is deleted and unverified under the substitute address and password, and only the tokens of its requests stay, emptied |
| `AccountOutcomes.ErasureIsLasting` | backend/apps/accounts/deletion_processing.py:151-244 | in every history nothing changes an erased account but a new registration or a forced status |
| `AccountOutcomes.ProcessingOutcome` | backend/apps/accounts/deletion_processing.py:94-148 | processing begins exactly for an approved, unblocked request that is confirmed or in progress |
| `AccountOutcomes.ResendOutcome` | backend/apps/accounts/services.py:384-417 | a code is sent again to an active, unverified account a minute after the last one and lives ten minutes |
| `AccountOutcomes.ResetRequestOutcome` | backend/apps/accounts/services.py:420-440 | a reset link goes to an active, verified account and lives an hour |
| `AccountOutcomes.EmailChangeRequestOutcome` | backend/apps/accounts/services.py:461-473 | a link for a new address carries it and lives an hour |
| `AccountOutcomes.WrongCodeOutcome` | backend/apps/accounts/services.py:300-340 | a wrong code is counted on the live one, which the fifth burns |
| `AccountOutcomes.RightCodeOutcome` | backend/apps/accounts/services.py:290-320 | the right code verifies the address and is spent |
| `AccountOutcomes.ResetOutcome` | backend/apps/accounts/services.py:442-458 | a reset stores the new password exactly when its link works, and spends every token |
| `AccountOutcomes.EmailChangeOutcome` | backend/apps/accounts/services.py:475-506 | an address change stores and verifies the address its link carries, unless it is empty or taken |
| `AccountOutcomes.PasswordChangeOutcome` | backend/apps/accounts/services.py:643-660 | a password change stores the new password for the active account the caller saw |
| `AccountOutcomes.StatusChangeOutcome` | backend/apps/accounts/services.py:71-110 | the operator's form knows two states and leaves a deleted account alone |
| `AccountOutcomes.DeletionRequestOutcome` | backend/apps/accounts/services.py:513-556 | a deletion request is accepted unless one is confirmed or in progress, lives a day, and cancels pending ones |
| `AccountOutcomes.ConfirmationOutcome` | backend/apps/accounts/services.py:559-595 | a confirmation confirms the link's own request and spends the link, exactly when the link works |
| `AccountOutcomes.CancellationOutcome` | backend/apps/accounts/services.py:598-640 | a cancellation takes back the one pending or confirmed request with its link |
| `AccountDesk.Desk.IssueToken` | backend/apps/accounts/services.py:183-207 | issuing in place: the kind's unused tokens are spent and one new token is stored, or nothing changes when its digest is taken |
| `AccountDesk.Desk.VerifyEmailCode` | backend/apps/accounts/services.py:290-352 | verification in place: the wrong-guess counter survives the failure that is raised |
| `AccountDesk.Desk.ConfirmPasswordReset` | backend/apps/accounts/services.py:442-458 | the reset in place |
| `AccountDesk.Desk.ConfirmNewEmail` | backend/apps/accounts/services.py:475-506 | the email change in place |
| `AccountDesk.Desk.RequestAccountDeletion` | backend/apps/accounts/services.py:513-556 | a deletion request in place: earlier pending ones are cancelled, confirmed or processing ones refuse it |
| `AccountDesk.Desk.ConfirmAccountDeletion` | backend/apps/accounts/services.py:559-595 | the confirmation in place |
| `AccountDesk.Desk.CancelAccountDeletion` | backend/apps/accounts/services.py:598-640 | the cancellation in place |
| `AccountDesk.Desk.ChangeUserStatus` | backend/apps/admin_control/services.py:470-497 | the forced status change in place, which keeps every token and request property |
| `AccountDesk.Desk.BeginErasure` | backend/apps/accounts/deletion_processing.py:94-148 | the start of processing in place |
| `AccountDesk.Desk.CompleteErasure` | backend/apps/accounts/deletion_processing.py:211-244 | the end of processing in place |
| `Analytics.RecordingStaysConsistent` | backend/apps/analytics/services.py:48-85 | after any calls, duplicates and unknown metrics included, the daily table is the per-day sums of the facts plus one active-learner count per distinct day and actor |
| `AnalyticsOutcomes.DailyTableIsExact` | backend/apps/analytics/services.py:36-85 | after any calls the row of a day, metric and dimensions is the sum of exactly the facts of that UTC day, metric and dimensions, plus the day's distinct learners in their one row |
| `AnalyticsOutcomes.RecordedFactsAreTheFirstCalls` | backend/apps/analytics/services.py:48-77 | the stored facts are exactly the calls that were the first with their event and a known metric, as made |
| `Analytics.ExpectedIgnoresOrder` | backend/apps/analytics/services.py:36-85 | what a row should say depends only on which facts there are |
| `Analytics.TablesDependOnFactsOnly` | backend/apps/analytics/services.py:48-85 | histories that recorded the same facts in any order show the same rows and active learners |
| `AnalyticsRebuild.RebuildRestoresTheRange` | backend/apps/analytics/services.py:88-121 | from arbitrarily corrupted tables a rebuild makes every row and pair of the range what the facts say and touches nothing outside it |
| `AnalyticsOutcomes.RebuildIsExact` | backend/apps/analytics/services.py:88-121 | from any tables a rebuild makes every row and learner of its range exact in that sense and leaves every other as it was |
| `AnalyticsRebuild.RebuildChangesNothing` | backend/apps/analytics/services.py:88-121 | on recorded tables a rebuild of any range changes no value and no active pair |
| `AnalyticsRebuild.RebuildIsIdempotent` | backend/apps/analytics/services.py:88-121 | rebuilding twice is rebuilding once, first events included |
| `AnalyticsRebuild.RebuildKeepsTheEarliestEvent` | backend/apps/analytics/services.py:97-115 | after a rebuild a pair's first event is that of its earliest fact |
| `AnalyticsRebuild.FirstEventIsKeptIff` | backend/apps/analytics/services.py:60-115 | for every history, range and pair, a rebuild keeps the pair's first event if and only if its first recorded fact has the event of its earliest fact |
| `AnalyticsRebuild.ActivePairsHaveThem` | backend/apps/analytics/services.py:60-115 | every active pair has such a first and such an earliest fact |
| `AnalyticsRebuild.FirstRebuildMayChangeTheFirstEvent` | backend/apps/analytics/services.py:60-115 | a history in which a late-arriving earlier event takes the field over |
| `AnalyticsRebuild.ProjectionConserves` | backend/apps/analytics/services.py:36-121 | every projected unit is a fact's value or one active learner, counted once |
| `AnalyticsRebuild.MetricStore.RecordMetric` | backend/apps/analytics/services.py:48-85 | recording in place |
| `AnalyticsRebuild.MetricStore.RebuildDailyProjections` | backend/apps/analytics/services.py:88-121 | the rebuild in place, with its span check and its summary counts |
| `PersonalData.BoundaryIsTheLeastClosedSet` | backend/apps/accounts/personal_data.py:41-84 | the models swept up are the least set of eligible models that contains the directly owned ones and is closed under having a foreign key into it |
| `PersonalData.EnoughRounds` | backend/apps/accounts/personal_data.py:63-84 | as many rounds as there are eligible models always reach the fixpoint |
| `PersonalData.SelectedRowsBelongToTheUser` | backend/apps/accounts/personal_data.py:41-84 | every selected row names the user or leads through foreign keys to a row that does |
| `PersonalData.SelectedIff` | backend/apps/accounts/personal_data.py:63-84 | a row is selected if and only if it leads to a row naming the user by foreign keys of which each parent's model was found in a strictly earlier round than the child's |
| `PersonalData.LaterParentsAreMissed` | backend/apps/accounts/personal_data.py:63-84 | so a child row whose parents are all of models found in the same or a later round is missed |
| `PersonalData.EveryMentionIsSelectedIff` | backend/apps/accounts/personal_data.py:50-62 | every row of an eligible model that names the user by any foreign key is selected, in all databases, if and only if every eligible model's foreign keys to the user table have ownership names |
| `PersonalData.DetachedModelsAreNeverFound` | backend/apps/accounts/personal_data.py:63-84 | a model with no ownership field and no foreign key into the eligible models is found in no round |
| `PersonalData.ReceiptsAreNeverFound` | backend/apps/focus/rescue_models.py:71-76 | rescue receipts are eligible, name their user by `account`, and are never found |
| `PersonalData.UncontinuedSessionsAreMissed` | backend/apps/focus/rescue_models.py:10-41 | a rescue session that did not continue into a focus session is missed |
| `PersonalData.RescueRowsAreMissed` | backend/apps/focus/rescue_models.py:10-76 | one receipt and one such session that name the user and are not selected |
| `PersonalData.OwnedModelsSelectByOwnershipOnly` | backend/apps/accounts/personal_data.py:50-62 | rows of a directly owned model are selected by their ownership fields alone, so one that only hangs off a personal parent is left out |
| `PersonalData.OwnedRowsAreSelectedIff` | backend/apps/accounts/personal_data.py:50-62 | a row of a model with ownership keys is selected exactly when one of them names the user |
| `PersonalData.EligibleModels` | backend/apps/accounts/personal_data.py:14-46 | the eligible models are those of eleven apps and ten more by name |
| `PersonalData.PersonalQueries` | backend/apps/accounts/personal_data.py:41-84 | the nested loops with their early exit compute that fixpoint |
| `Erasure.StuckSetIsTheLargest` | backend/apps/accounts/deletion_processing.py:187-210 | there is a largest set of labels that block each other or are blocked from outside |
| `Erasure.AnyMaximalDrainIsTheSame` | backend/apps/accounts/deletion_processing.py:187-210 | any maximal sequence of successful deletions, in any order, leaves exactly that set |
| `Erasure.ErasesEverythingIff` | backend/apps/accounts/deletion_processing.py:187-210 | everything can be erased exactly when no set of labels blocks itself |
| `Erasure.AcyclicProtectionErasesEverything` | backend/apps/accounts/deletion_processing.py:187-210 | protection that follows a ranking, with no protector outside, never stops the loop |
| `Erasure.EraseSelected` | backend/apps/accounts/deletion_processing.py:187-210 | the retry loop ends, and with the same outcome for every order of its dictionary: everything erased, the stuck set reported, or an abort because somebody else's row would go |
| `Erasure.OutcomeIsExact` | backend/apps/accounts/deletion_processing.py:187-210 | the outcome from the records alone: an abort when deleting the labels outside the largest self-blocking set takes somebody else's row, otherwise that set when it has members, otherwise just the rows those deletions take are gone |
| `Erasure.OneDeletionTakesTheLeast` | backend/apps/accounts/deletion_processing.py:64-91 | one attempt takes the least set of rows that holds the label's own and all that cascades from it, and is refused exactly when a row still there protects one of that set |
| `Erasure.ErasureIsCompleteAndClean` | backend/apps/accounts/deletion_processing.py:187-210 | a completed erasure removes every selected row, leaves no reference to a removed row and loses nobody else's row |
| `AchievementRuns.AwardsAreExact` | backend/apps/achievements/services.py:43-116 | an award exists exactly when the aggregate has reached the target, was made by the evidence that first reached it, and was published once; progress is the aggregate and its revision counts the matching evidence |
| `AchievementRuns.AwardsAreForever` | backend/apps/achievements/services.py:92-105 | an award is never changed or taken back |
| `AchievementRuns.RecordingIsAllOrNothing` | backend/apps/achievements/services.py:43-83 | evidence is accepted exactly when it is positive, its user active, its source key new and every definition it concerns valid; otherwise nothing changes |
| `AchievementOutcomes.EvidenceIsStoredIff` | backend/apps/achievements/services.py:54-83 | evidence is stored as it came exactly when its value is positive, its user active, its key new and every definition that asks for it well formed |
| `AchievementOutcomes.CountingCountsPositions` | backend/apps/achievements/services.py:34-35 | counting counts the user's evidence of the type |
| `AchievementOutcomes.AddingAddsValues` | backend/apps/achievements/services.py:36-37 | adding adds up its values |
| `AchievementOutcomes.MaximumIsTheLargestValue` | backend/apps/achievements/services.py:38-39 | the maximum is the largest of its values, and zero without any |
| `AchievementOutcomes.AwardsAreAnnounced` | backend/apps/achievements/services.py:106-115 | in every run each award was announced with its own code, title and time |
| `AchievementOutcomes.RebuildWrites` | backend/apps/achievements/services.py:119-134 | what a rebuild writes and where it stops |
| `AchievementOutcomes.CatalogEntry` | backend/apps/achievements/selectors.py:25-49 | what the catalog lists and in which order |
| `AchievementRuns.AggregateOnlyGrows` | backend/apps/achievements/services.py:33-40 | count, sum and max never fall as evidence is added |
| `AchievementRuns.LargestIsTheMaximum` | backend/apps/achievements/services.py:39 | the max aggregation is the largest value, and zero without evidence |
| `AchievementRuns.FirstReachedIsUnique` | backend/apps/achievements/services.py:90-104 | there is at most one first crossing |
| `AchievementRuns.RebuildIsExact` | backend/apps/achievements/services.py:119-134 | from any records a rebuild sets the user's progress on each definition up to the first invalid one, keeps revisions and awards, touches nobody else, and raises exactly when some definition on offer is invalid |
| `AchievementRuns.RebuildKeepsCatalog` | backend/apps/achievements/selectors.py:13-49 | a rebuild never changes what any user's catalog shows, even when it raises |
| `AchievementRuns.RebuildRepairs` | backend/apps/achievements/services.py:119-134 | with valid definitions a rebuild restores the catalog from arbitrarily damaged progress |
| `AchievementRuns.CatalogShowsTheAggregate` | backend/apps/achievements/selectors.py:25-49 | a catalog entry shows the aggregate, the target and the time of the evidence that first reached it |
| `AchievementDesk.Desk.Record` | backend/apps/achievements/services.py:43-116 | the recording loop in place, undone when a definition is invalid |
| `AchievementDesk.Desk.RebuildProgress` | backend/apps/achievements/services.py:119-134 | the rebuild loop in place, not undone when it raises |
| `AchievementDesk.Desk.CatalogForUser` | backend/apps/achievements/selectors.py:13-49 | the catalog loop |
| `ObjectCache.ListingIsUnique` | backend/platform_core/object_cache.py:209-224 | the files have exactly one oldest-first listing |
| `ObjectCache.RunningTotalIsExact` | backend/platform_core/object_cache.py:224-229 | under any pattern of failed deletions the running total is the bytes really left plus exactly the bytes of files somebody else removed meanwhile |
| `ObjectCache.DeletesOnlyWhatItMustIff` | backend/platform_core/object_cache.py:224-229 | the eviction deletes just the copies that one noticing vanished files would, if and only if no copy is reached with too little freed by its own deletions but enough together with what vanished |
| `ObjectCache.VanishedFileCostsAnother` | backend/platform_core/object_cache.py:224-229 | a file that vanished meanwhile makes the eviction delete a copy that would have fitted |
| `ObjectCache.RemovesTheShortestPrefix` | backend/platform_core/object_cache.py:221-229 | when deletions succeed, the shortest oldest-first prefix that brings the total to the target goes |
| `ObjectCache.StaysIff` | backend/platform_core/object_cache.py:224-229 | a listed file stays if and only if its deletion was not attempted or was refused, and it was attempted exactly when older deletions had not freed enough |
| `ObjectCache.SurvivesIff` | backend/platform_core/object_cache.py:204-229 | the same as an exact condition on the stored files |
| `ObjectCacheOutcomes.EvictionOutcome` | backend/platform_core/object_cache.py:204-229 | a file goes exactly when the bytes exceed the limit, older removals have not brought them to nine tenths of it, and its deletion is not refused |
| `ObjectCacheOutcomes.ListingIsOldestFirst` | backend/platform_core/object_cache.py:209-224 | the order is by age and then by size |
| `ObjectCache.EvictionBringsItUnderTheLimit` | backend/platform_core/object_cache.py:204-229 | after an eviction the stored bytes fit the limit unless every file left refused to go |
| `ObjectCache.NewestSurvivesIff` | backend/platform_core/object_cache.py:141-182 | the strictly newest copy survives if and only if the limit is not exceeded, its deletion is refused, or it fits the target beside the files that cannot be deleted |
| `ObjectCache.AdmittedCopySurvives` | backend/platform_core/object_cache.py:93-98 | a copy admitted by the quarter rule survives the eviction that follows its own fill when the other files can be deleted |
| `ObjectCacheRuns.OnlyVerifiedCopiesAreStored` | backend/platform_core/object_cache.py:93-182 | in every run each stored copy was asked for within the admission rule and has the declared size and checksum |
| `ObjectCacheOutcomes.StoredCopiesMatchARequest` | backend/platform_core/object_cache.py:93-182 | in every run each stored copy has the size and, but for the case of letters, the hash some request asked for, and at most a quarter of the limit |
| `ObjectCacheOutcomes.SchedulesIff` | backend/platform_core/object_cache.py:93-109 | which copies are scheduled |
| `ObjectCacheOutcomes.CopyOutcome` | backend/platform_core/object_cache.py:141-182 | which copies are stored, and what is stored |
| `ObjectCacheOutcomes.OpenOutcome` | backend/platform_core/object_cache.py:72-90 | a read refreshes the time of a copy exactly when it is more than an hour old |
| `ObjectCacheRuns.TheLimitHolds` | backend/platform_core/object_cache.py:141-229 | as long as scans work and no deletion is refused, the cache is over its limit by no more than the copies whose eviction is still to come, each at most a quarter of the limit, and within it once they have run |
| `ObjectCacheRuns.AFilledCopyCanBeOpened` | backend/platform_core/object_cache.py:141-182 | a finished copy newer than all others can be opened afterwards |
| `ObjectCacheWorker.Store.ScheduleFill` | backend/platform_core/object_cache.py:93-109 | admission, with one fill per object at a time |
| `ObjectCacheWorker.Store.CopyObject` | backend/platform_core/object_cache.py:141-180 | the copy loop and its verification, up to the copy being in place |
| `ObjectCacheWorker.Store.FillGuarded` | backend/platform_core/object_cache.py:131-182 | one worker's job: the copy and, when it was stored, the eviction after it |
| `ObjectCacheWorker.Store.EvictCopies` | backend/platform_core/object_cache.py:204-229 | the scan in any order, the sort and the deletion loop |
| `ObjectCacheWorker.Store.OpenCached` | backend/platform_core/object_cache.py:72-90 | a read returns the stored bytes and refreshes an age of more than an hour |
| `Storage.LocalAndRemoteAgreeIff` | backend/platform_core/storage.py:70-106 | a local read and a provider's byte range (section 14.1.2 of RFC 9110) give the same bytes if and only if the start lies inside the object for a positive length or none, or the object is empty for a length that is not positive |
| `Storage.SliceBytes` | backend/platform_core/storage.py:119-133 | the bytes of a local range, one by one |
| `Storage.ServedBytes` | backend/platform_core/storage.py:90-106 | the bytes of a provider's range, one by one |
| `Storage.ManagedObject.StreamLocal` | backend/platform_core/storage.py:119-133 | with any short reads the pieces are not empty, at most a chunk long, and join to exactly the requested bytes |
| `Storage.ManagedObject.StreamRemote` | backend/platform_core/storage.py:108-117 | the same for a response body |
| `Storage.ManagedObject.Stream` | backend/platform_core/storage.py:70-106 | the pieces join to `content[start:start+length]` locally and to the served range remotely, and a range that cannot be satisfied is reported before anything is streamed |
| `Storage.SequentialReader.Read` | backend/platform_core/storage.py:195-210 | one forward-only read, its buffer and its end flag |
| `Storage.ReadsAreSlices` | backend/platform_core/storage.py:195-210 | every sequence of reads returns consecutive slices of the asked size or of what is left, whatever the piece boundaries |
| `Storage.OneReadBytes` | backend/platform_core/storage.py:195-210 | one read returns exactly the next bytes and leaves the rest |
| `Storage.ReaderIsExactIff` | backend/platform_core/storage.py:202-207 | that holds for a list of pieces if and only if no piece follows an empty one, which the reader takes for the end |
| `Storage.ReadingAnObject` | backend/platform_core/storage.py:135-138 | it always holds for the pieces `stream` produces |
| `QuizRuns.EveryHistoryIsSound` | backend/apps/assessments/quiz_services.py:183-380 | versions are numbered 1 to n with the current one last, and a search entry exists, under the published version's own fields, exactly while a version is published and the quiz is not retired |
| `QuizRuns.InReviewIsWhatWasSubmitted` | backend/apps/assessments/quiz_services.py:240-258 | while in review the current version is the one submitted |
| `QuizRuns.PublishedIsWhatWasSubmitted` | backend/apps/assessments/quiz_services.py:310-361 | the published version is the very version that was current at the last accepted submission before the last accepted publication |
| `QuizRuns.VersionsAreImmutable` | backend/apps/assessments/quiz_services.py:142-180 | stored versions are never changed or removed |
| `QuizRuns.StoredVersionsAreValid` | backend/apps/assessments/quiz_services.py:91-139 | every stored version follows the input rules |
| `QuizRuns.PublicationIsComplete` | backend/apps/assessments/quiz_services.py:283-307 | at publication every fixed question is published in the linked version, there are as many as declared and no question twice, not even in two versions; a pool is large enough |
| `QuizRuns.RevisionCountsAcceptedActions` | backend/apps/assessments/quiz_services.py:183-185 | the revision counts the accepted actions |
| `QuizRuns.NoRevisionIsSpentTwice` | backend/apps/assessments/quiz_services.py:183-185 | of two actions that saw the same revision at most one is accepted |
| `QuizRuns.RetiredIsForever` | backend/apps/assessments/quiz_services.py:364-380 | a retired quiz stays retired and cannot be found |
| `QuizOutcomes.CreationOutcome` | backend/apps/assessments/quiz_services.py:91-199 | a quiz is created exactly when the caller may and the data follows the rules, spelled out one by one |
| `QuizOutcomes.AccessOutcome` | backend/apps/assessments/quiz_services.py:183-185 | who may not act is refused first, and then who saw another revision |
| `QuizOutcomes.RevisionIsAcceptedIff` | backend/apps/assessments/quiz_services.py:202-217 | which revisions are accepted |
| `QuizOutcomes.RevisionOutcome` | backend/apps/assessments/quiz_services.py:218-237 | what an accepted revision stores |
| `QuizOutcomes.SubmissionOutcome` | backend/apps/assessments/quiz_services.py:240-258 | drafts and rejected quizzes can be submitted |
| `QuizOutcomes.RejectionOutcome` | backend/apps/assessments/quiz_services.py:261-280 | a rejection needs a reason, which is kept trimmed |
| `QuizOutcomes.PublicationOutcome` | backend/apps/assessments/quiz_services.py:283-361 | which publications are accepted, what they publish and what they index |
| `QuizOutcomes.RetirementOutcome` | backend/apps/assessments/quiz_services.py:364-380 | what a retirement stores |
| `QuizOutcomes.IndexedFields` | backend/apps/assessments/quiz_services.py:342-351 | in every run the index holds the published version's own title, text, path, language and mode |
| `QuizRuns.DecisionsFollowSubmission` | backend/apps/assessments/quiz_services.py:240-361 | an accepted rejection or publication decides the submission that is the accepted action right before it: nothing changes in between |
| `QuizWorkflow.Desk.ReviseQuiz` | backend/apps/assessments/quiz_services.py:202-237 | the revision in place |
| `QuizWorkflow.Desk.SubmitForReview` | backend/apps/assessments/quiz_services.py:240-258 | the submission in place |
| `QuizWorkflow.Desk.RejectQuiz` | backend/apps/assessments/quiz_services.py:261-280 | the rejection in place |
| `QuizWorkflow.Desk.ValidatePublishable` | backend/apps/assessments/quiz_services.py:283-307 | the loop over the fixed questions decides publishability |
| `QuizWorkflow.Desk.PublishQuiz` | backend/apps/assessments/quiz_services.py:310-361 | the publication in place, with its search entry |
| `QuizWorkflow.Desk.RetireQuiz` | backend/apps/assessments/quiz_services.py:364-380 | the retirement in place |
| `ScopeAnalytics.GroupSum` | backend/apps/admin_control/scope_analytics.py:135-152 | adding up groups chosen by key is adding up the records with those keys |
| `ScopeAnalytics.GroupKeys` | backend/apps/admin_control/scope_analytics.py:135-148 | a grouped query answers with each key of its records exactly once |
| `ScopeAnalytics.PathRow` | backend/apps/admin_control/scope_analytics.py:252-272 | a path-grouped figure of a row equals the child scope's own query |
| `ScopeAnalytics.CohortRow` | backend/apps/admin_control/scope_analytics.py:252-272 | a cohort-grouped figure of a row equals the child scope's own query |
| `ScopeOutcomes.FiguresAreSums` | backend/apps/admin_control/scope_analytics.py:174-250 | every figure of a scope is the sum of exactly the records that count for it, people by cohort and content by path |
| `ScopeOutcomes.CountsOfNodes` | backend/apps/admin_control/scope_analytics.py:220-239 | which nodes the three counts count |
| `ScopeOutcomes.RowsShowTheirScopes` | backend/apps/admin_control/scope_analytics.py:252-272 | the rows stand for the nodes on offer one level down, in order, and show their identifier, title and figures |
| `ScopeOutcomes.ChoiceOutcome` | backend/apps/admin_control/scope_analytics.py:114-171 | which requests are answered, and with which nodes |
| `ScopeOutcomes.ListedNodes` | backend/apps/admin_control/scope_analytics.py:71-82 | the nodes listed for a level are those of its kind, at or below the parent, that some cohort studies in |
| `ScopeDrillDown.DrillDown` | backend/apps/admin_control/scope_analytics.py:159-272 | at any scope every breakdown row can be selected in turn, and the metrics then returned are the row's own |
| `ScopeDrillDown.OnlyChildrenCanBePicked` | backend/apps/admin_control/scope_analytics.py:114-126 | an identifier is accepted exactly when it names a node of that level inside the selected parent that some cohort studies in |
| `ScopeDrillDown.CountsAreOfDistinctNodesIff` | backend/apps/admin_control/scope_analytics.py:220-239 | the figures for specialties and years count distinct nodes if and only if no node of the level lies below two of the listed parents |
| `ScopeDrillDown.UnrelatedParentsShareNothing` | backend/apps/admin_control/scope_analytics.py:220-239 | parents of which none lies below another share no node |
| `ScopeDrillDown.BreakdownAddsUpIff` | backend/apps/admin_control/scope_analytics.py:71-89 | the subjects in the rows of a breakdown add up to the subjects under its nodes, for all records, if and only if no listed child's path starts with another's |
| `ScopeDrillDown.ContentAddsUpIff` | backend/apps/admin_control/scope_analytics.py:252-272 | the same for every table grouped by path and both of its measures |
| `ScopeDrillDown.NestedCollegesCountTwice` | backend/apps/admin_control/scope_analytics.py:71-82 | a college within a college shows its one subject in both rows |
| `ScopeDrillDown.BreakdownAddsUpIffNoneIsAbove` | backend/apps/admin_control/scope_analytics.py:71-82 | in the hierarchy the condition is that no listed child is an ancestor of another |
| `TreePaths.PrefixIsAncestry` | backend/apps/education/services.py:47-49 | one path starts with another exactly when the other node is an ancestor or the node itself |
| `TreePaths.ChildPathExtendsItsParents` | backend/apps/education/services.py:47-49 | a child's path is its parent's, its own identifier and a slash |
| `ScopeDrillDown.PeopleAddUpIff` | backend/apps/admin_control/scope_analytics.py:84-89 | the people in sibling rows add up without double counting if and only if no cohort has content under two of the nodes |
| `ScopeDrillDown.BuildTree` | backend/apps/admin_control/scope_analytics.py:92-111 | the loop that collects each cohort's paths |
| `ScopeDrillDown.ScopedAnalytics` | backend/apps/admin_control/scope_analytics.py:159-295 | the whole request: rejection, metrics and the loop that appends the breakdown rows |

## Left out

- AttemptRuns.EveryRunIsSound: is about calls one at a time. Saves that overlap a start are covered by `OverlappingStart` for one attempt; a refresh that overlaps a start is not, and a submission cannot overlap one, since both lock the user's row.
- Question selection, sampling and shuffling: the selected questions are an input of a start, in any number and order.
- Attempt activity and question issue reports, and the release time of results: single-row appends and checks.
- Achievement recordings that overlap: there is no per-user lock in the source, and each recording is one step here. Definitions stay fixed during a run.
- The database without advisory locks: the rate limiter's protocol is that of the locking database.
- Hash keys and digests: advisory keys are any function of the bucket; token digests never collide; the dimension key of a metric is the normalised dimensions themselves.
- Lifetimes, cooldowns and limits that are settings: the defaults are used.
- Encryption, mail transport, password hashing, sessions and sign-in: their outcomes are step parameters or absent. The last-administrator check and the account's other profile fields are not part of the tokens' model.
- The table of mail reply codes is modelled as permanent or transient by the same rule; parsing an exception's text is not.
- The health summary of the email queue.
- Fetching, exporting and replaying personal data: only which models and rows are selected, and the erasure loop over them. Deleting the stored files afterwards is part of one success flag.
- `int(limit * 0.9)` is taken as the floor of nine tenths of the limit; file times are integers.
- The deletions of one eviction are one step, apart from files that vanish meanwhile.
- The order in which account operations take their row locks, and so deadlocks between them: the steps of an account are serial.
- Stale partial files and fills of one object by several processes: a claim that fails is one of the outcomes of a fill.
- Provider failures in the middle of a stream: a response body is read to its end, and only a range that cannot be satisfied fails.
- The percentage shown by scoped analytics: accuracy is the pair of counts, without rounding.
- The sort of sibling nodes: the tree lists its nodes in display order, which filtering keeps.
- Quiz access policies, the checks that turn question identifiers into versions, and an academic path that moves or is hidden after publication.
- HTTP views, serializers, permissions, the web client, subscriptions, payments, reports and benchmarks.
- EmailDeliveryRuns.TerminalRowsStay: says nothing of a row that was deleted with its account.
- ScopeDrillDown.DrillDown: is about paths that start at the root, as the hierarchy writes them; an empty path would select everything.
