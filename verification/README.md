# Verified model of Woland Guard

This project models the protocols of Woland Guard and states and proves what they keep. Nothing of the
original program is executed. To verify the whole project: `dafny verify dfyconfig.toml`.

Two at-least-once protocols are the core.

- **Control-plane outbox** (`OutboxRow`, `OutboxTable`, `OutboxRuns`, `OutboxOverlap`, `OutboxRefinement`,
  `OutboxWitnesses`). Rows go pending, processing, delivered or failed, and back to pending by a requeue.
  Any number of workers claim rows with tokens and leases. Each transaction is one atomic event; an
  adapter call starts and ends in events of its own. A run is any sequence of such events from the empty
  table.
- **Agent pipeline** (`Spool`, `Delivery`, `PoisonIsolation`, `AgentPipeline`, `EventLoss`, `SourceOrder`).
  A source yields records with cursors, the spool stores event and cursor together, the delivery manager
  sends, halves and sets aside, and the server inserts what it does not have. Replies get lost, requests
  stay on the wire and arrive late or twice, and the agent crashes between any two steps.

Around them stand the file tailer (`FollowedFile`, `TailerRuns`, joined to the pipeline in `FileSource`),
the incident workflow with operator idempotency (`IncidentWorkflow`), the resumable integrity scan
(`IntegrityBaseline`, `IntegrityLoss`), the limiters (`SlidingWindow`, `LoginLimiter`, `LoginRuns`), keyset
pagination (`KeysetWalk`), IP-block plans (`IpBlocks`), LIKE escaping (`LikeEscape`), ledger-driven cleanup
that may crash before any step (`ExactCleanup`) and the year of RFC 3164 timestamps (`SyslogYear`).

Code that changes state in place is a class whose methods are proved against functions of the old
state; the theorems over whole runs are lemmas about the same functions. What an operation means is also
stated without these functions, in the columns of the old and the new state and with literal codes and
bounds (`ReplyMeans`, `AnswerMeans`, `LinesMean`, `RequestMeans` and others): the methods ensure it, and a
lemma proves it of the function that the runs use.

## What turned out false, and the exact condition

- **Tailer.** Three steps lose lines: a read that discards an overlong line and meets the end of the file
  at the path, opening a new file after files with lines came and went unnoticed, and a restart while
  lines of renamed files are not committed. Without such a step every run is exact
  (`TailerRuns.TailerExactness`), and each of them, from any exact state, really leads to a wrong line or
  to a line that no continuation emits (`LosingTrackEmitsAFragment`, `SkippingLosesALine`,
  `ForgettingLosesALine`, `PassedForever`). All three are reachable.
- **Records skipped by a rebase.** When a saved cursor is given up, reading starts again at what is still
  available. No record before the saved cursor is ever left out if and only if no such read starts above a
  record that is not committed (`SourceOrder.SkipsExactlyWhenJumping`). It does happen
  (`SkippingIsReachable`), and once the record is no longer available it is left out for good
  (`SkippedForGood`).
- **Events with one cursor.** No committed event is lost if and only if no two records share a cursor with
  different events (`EventLoss.LossExactlyWhenAmbiguous`). Integrity records share a cursor exactly when
  they carry the same entries (`IntegrityBaseline.RecordsShareACursor`), never within one scan
  (`OneScanNeverRepeats`). A file changed in content, then in permissions, and then changed back yields
  two different events under one cursor, and the second is lost (`IntegrityLoss.ChangeBackIsLost`).
- **Occurrences of one cursor.** A file that is reverted yields the same record again
  (`IntegrityBaseline.RevertedFileRepeatsCursor`). Of all occurrences of a cursor the server stores one, so
  none is lost if and only if there is at most one (`EventLoss.OnlyOneOccurrenceIsStored`). Bodies carry no
  times here, so such a repeat is not a different event for `LossExactlyWhenAmbiguous`.
- **Limiters.** The clock is read before the lock is taken, so requests may be counted out of clock order.
  Every window is bounded in every order if and only if the limit is one or the window is empty
  (`SlidingWindow.BoundedInAnyOrder`). A run counted in clock order is always bounded
  (`SlidingWindow.EveryWindowIsBounded`, `LoginRuns.AdmissionsAreBounded`).
- **Overlapping adapter calls.** A claim keeps its row if and only if no recovery reads a clock at or past
  its lease (`OutboxOverlap.OwnedExactlyWithoutLateRecovery`), and a second worker can take the row of one
  that is still at work exactly after such a recovery, once the row is due
  (`OutboxOverlap.OverlapOpensExactly`). That the lease exceeds the adapter timeout does not rule it out.
- **Year of a timestamp.** Within 364 days back and one day ahead the result is right if and only if the
  moment does not lie in the next year (`SyslogYear.YearIsRecovered`); otherwise it is one year too low
  (`AheadOverNewYearIsAYearOff`). 364 days cannot be raised (`LimitIsReached`).

## Assumptions

- Tokens are never issued twice, event identity is an injective function of the cursor (UUID version 5,
  section 5.5 of RFC 9562), and the canonical request hash is injective.
- Instants of the outbox are whole microseconds; those of the limiters are real numbers.
- A server that reports a batch as fully accounted for has stored all its ids
  (`AgentPipeline.HonestReply`); poison isolation assumes a server that answers only success, 413 and 422.
- A renamed log file does not grow any more.
- `SourceOrder` is about sources whose cursors do not recur: the journal and tailed files, not integrity
  scans.
- During cleanup nobody else creates or deletes resources of the run; the restore and the main project
  have different names, as the identity guarantees.

## Model

| member | source | states |
|---|---|---|
| OutboxRuns.FlushesAreLegal | apps/control-plane/src/woland_guard_control_plane/application/outbox_worker.py:250-571 | every row value that any event flushes, claim-then-fail in one transaction included, passes the CHECK constraints and the update guard, changes the status, keeps the envelope and uses up the potential `2*(20-attempts)+(20-max)+[processing]` |
| OutboxRow.ClaimThenFailMoves | apps/control-plane/src/woland_guard_control_plane/application/outbox_worker.py:274-329 | the claim and the failure flushed after it in the same transaction are two moves that the constraints and the update guard allow |
| OutboxRow.RetryMeaning | apps/control-plane/src/woland_guard_control_plane/application/outbox_worker.py:364-411 | when a rescheduled or recovered row is due again, and that it fails exactly when its attempts are used up, with which error code |
| OutboxRow.RequeueMove | apps/control-plane/src/woland_guard_control_plane/application/outbox_worker.py:523-571 | a requeue is a legal move that keeps the attempt counter and grants exactly the extra attempts, due at once |
| OutboxRow.ChecksMean | migrations/versions/20260726_0005_transactional_outbox_worker.py:335-397 | the CHECK constraints, column by column: which statuses each lifecycle column is filled in |
| OutboxRow.GuardMeans | migrations/versions/20260726_0005_transactional_outbox_worker.py:416-446 | the update trigger lets a status change in exactly five ways, and the envelope not at all |
| OutboxRuns.InvariantAt | apps/control-plane/src/woland_guard_control_plane/application/outbox_worker.py:250-571 | in every reachable state rows are healthy, no two rows and no two workers share a token, and a worker whose token a row still carries knows its lease and attempt number |
| OutboxRuns.ReachableRows | migrations/versions/20260726_0005_transactional_outbox_worker.py:335-397 | every reachable row passes all CHECK constraints; a pending row can be claimed again; a failed row has been attempted at least once, as the requeue audit entry demands |
| OutboxRuns.RowsPersist | apps/control-plane/src/woland_guard_control_plane/application/outbox_worker.py:332-361 | over any run rows never vanish, envelopes never change, and a delivered row never changes again |
| OutboxRuns.RetiredForever | apps/control-plane/src/woland_guard_control_plane/application/outbox_worker.py:274-286 | a token that no row carries any more never comes back |
| OutboxRuns.CompletionIsFenced | apps/control-plane/src/woland_guard_control_plane/application/outbox_worker.py:676-803 | a completion by the current claim retires its token and reports the new status; by a superseded claim it writes nothing and reports a lost lease |
| OutboxRuns.OneEffectPerToken | apps/control-plane/src/woland_guard_control_plane/application/outbox_worker.py:332-443 | in any run of any number of workers at most one completion per claim token takes effect |
| OutboxRuns.LostExactlyWhenRecovered | apps/control-plane/src/woland_guard_control_plane/application/outbox_worker.py:446-479 | a completion is lost if and only if, since its claim, some recovery read a clock at or past its lease |
| OutboxRuns.LeaseExclusivity | apps/control-plane/src/woland_guard_control_plane/application/outbox_worker.py:839-864 | if no claim in progress outlives its lease, no two workers are ever at work on one row and no completion is lost |
| OutboxWitnesses.LateCallsOverlap | apps/control-plane/src/woland_guard_control_plane/application/outbox_worker.py:446-479 | for every lease a run exists in which two adapter calls for one row overlap |
| OutboxOverlap.OwnedExactlyWithoutLateRecovery | apps/control-plane/src/woland_guard_control_plane/application/outbox_worker.py:446-479 | in any run every claim in progress owns its row all the time if and only if no recovery reads a clock at or past the lease of one that does |
| OutboxOverlap.NoLateRecoveryNoOverlap | apps/control-plane/src/woland_guard_control_plane/application/outbox_worker.py:446-479 | and then no two workers are ever at work on one row and no completion is lost, whatever the leases |
| OutboxOverlap.OverlapOpensExactly | apps/control-plane/src/woland_guard_control_plane/application/outbox_worker.py:250-329 | while a worker is at work on a row, another can claim it exactly when some recovery since the first claim read a clock at or past its lease and the row is due; then both are at work on it |
| OutboxOverlap.LateRecoveryOpens | apps/control-plane/src/woland_guard_control_plane/application/outbox_worker.py:446-479 | such a recovery makes the row due at once if it has attempts left, and fails it otherwise |
| OutboxOverlap.OverlapNeedsRecovery | apps/control-plane/src/woland_guard_control_plane/application/outbox_worker.py:446-479 | whenever two workers are at work on one row, the lease of the one that claimed first was passed by a recovery between their claims |
| OutboxRuns.StatusChangesUsePotential | apps/control-plane/src/woland_guard_control_plane/application/outbox_worker.py:250-571 | status changes so far plus the potential left never exceed 59 |
| OutboxRuns.RowLifeIsBounded | apps/control-plane/src/woland_guard_control_plane/application/outbox_worker.py:523-571 | a row changes status at most 59 times in its whole life, manual requeues included |
| OutboxWitnesses.LifeBoundIsReached | apps/control-plane/src/woland_guard_control_plane/application/outbox_worker.py:523-571 | and there is a run in which it changes status exactly 59 times |
| OutboxRuns.AdapterCallsAreBounded | apps/control-plane/src/woland_guard_control_plane/application/outbox_worker.py:274-281 | adapter calls for a row never exceed its attempt count, which never exceeds max_attempts, which never exceeds 20 |
| OutboxTable.Table.ClaimNextMessage | apps/control-plane/src/woland_guard_control_plane/application/outbox_worker.py:250-329 | takes the unlocked due row with attempts left that is earliest by due time, creation and id: it is claimed, with one more attempt, the token and the lease, exactly if the destination is enabled, the payload valid and a configuration not known to be missing, and otherwise fails at once, with DESTINATION_DISABLED, PAYLOAD_INVALID or DESTINATION_UNCONFIGURED exactly when the first thing wrong is that one; nothing changes exactly when there is no such row |
| OutboxTable.Table.CompleteClaim | apps/control-plane/src/woland_guard_control_plane/application/outbox_worker.py:332-443 | a claim that still owns its row turns it, column by column, into a delivered one, a failed one with the code, or one that is pending from the delay on unless its attempts are used up; any other claim changes nothing and is told that the lease was lost |
| OutboxTable.Table.RecoverExpiredClaims | apps/control-plane/src/woland_guard_control_plane/application/outbox_worker.py:446-479 | exactly the rows whose lease is over are due at once again, or failed if their attempts are used up, and the counts are those of the rows that moved to each status |
| OutboxTable.Table.CountStatuses | apps/control-plane/src/woland_guard_control_plane/application/outbox_worker.py:446-479 | counts exactly the rows of each returned status |
| OutboxTable.Table.RequeueFailedMessage | apps/control-plane/src/woland_guard_control_plane/application/outbox_worker.py:523-571 | requeues exactly when confirmed, within 1 to 5 extra attempts, failed, and within the limit of 20; each refusal changes nothing |
| OutboxTable.ClaimIsDetermined | apps/control-plane/src/woland_guard_control_plane/application/outbox_worker.py:250-329 | the claim transaction has exactly one possible effect: queue order leaves no choice |
| OutboxTable.ClaimIsAnEvent | apps/control-plane/src/woland_guard_control_plane/application/outbox_worker.py:250-329 | a claim on the table is an enabled event of the runs, with the same rows and the same claim |
| OutboxTable.Worker.RunOnce | apps/control-plane/src/woland_guard_control_plane/application/outbox_worker.py:645-674 | recovers first if asked; every iteration is a claim followed by the completion its reply calls for, whatever the other workers do before it and during the call; the counters classify all of them, and stopping early means that nothing was claimable |
| OutboxTable.Worker.DeliverClaim | apps/control-plane/src/woland_guard_control_plane/application/outbox_worker.py:676-803 | for a claim that still owns its row: a delivered result delivers it, a permanent one with a code fails it with that code, a retryable one with a code puts it off by the delay or fails it with ATTEMPTS_EXHAUSTED when attempts are used up, a missing adapter fails it with DESTINATION_UNCONFIGURED, and errors, foreign replies and results without a code are retried with their codes; other rows are as the other workers left them, and a lost lease changes nothing |
| OutboxTable.TallyClassifies | apps/control-plane/src/woland_guard_control_plane/application/outbox_worker.py:657-674 | the counters add up to the number processed and each counts exactly the rows of its outcome |
| OutboxRefinement.CompletionIsAnEvent | apps/control-plane/src/woland_guard_control_plane/application/outbox_worker.py:332-443 | a completion on the table is an enabled event of the runs, and the worker is told of success exactly when the event takes effect |
| OutboxRefinement.RecoveryIsAnEvent | apps/control-plane/src/woland_guard_control_plane/application/outbox_worker.py:446-479 | a recovery on the table is an enabled event of the runs with the same rows |
| OutboxRefinement.RequeueIsAnEvent | apps/control-plane/src/woland_guard_control_plane/application/outbox_worker.py:523-571 | a requeue is accepted exactly when its event is enabled, with the same row |
| OutboxRefinement.IterationIsARun | apps/control-plane/src/woland_guard_control_plane/application/outbox_worker.py:645-751 | one iteration of a worker is a run: the events of others, the claim and the start of the call, the events of others, the end of the call and the completion |
| OutboxRefinement.RunOnceIsARun | apps/control-plane/src/woland_guard_control_plane/application/outbox_worker.py:652-673 | the loop of run_once, as the method records it, is a run of the system with the events of the others in between |
| OutboxRefinement.WholeCallIsARun | apps/control-plane/src/woland_guard_control_plane/application/outbox_worker.py:645-674 | the whole call, from the table before it to the table after it, is a run: the recovery if asked for, the iterations, and the last look that finds nothing to claim |
| OutboxRefinement.PlayingIsARun | apps/control-plane/src/woland_guard_control_plane/application/outbox_worker.py:645-674 | and it prolongs any run that ends in the state it starts from |
| Spool.SQLiteSpool.EnqueueWithCursor | apps/agent/src/woland_guard_agent/spool.py:123-171 | inserted exactly when the id is new, there is room and the cursor fits: then the old rows are followed by one pending row with this event, no attempts and due at once; a duplicate moves only the cursor, a full spool or an oversized cursor moves nothing |
| Spool.SQLiteSpool.ReadyBatch | apps/agent/src/woland_guard_agent/spool.py:244-274 | returns pending rows that are due, by the instant they were enqueued and then in insertion order, as many as fit the limit, and leaves out none that comes earlier |
| Spool.WithoutMeans | apps/agent/src/woland_guard_agent/spool.py:276-288 | deleting a batch removes exactly the rows of these events and keeps the others in their order |
| Spool.BatchSize | apps/agent/src/woland_guard_agent/spool.py:244-274 | a batch chosen oldest-first repeats no event and is no larger than the number of due rows |
| Spool.SQLiteSpool.Requeue | apps/agent/src/woland_guard_agent/spool.py:377-390 | found exactly when the event is in the spool and not pending; then every event stays and exactly this one becomes pending as well, and otherwise nothing changes |
| Spool.RequeuedPending | apps/agent/src/woland_guard_agent/spool.py:377-390 | resetting the row of an event keeps all ids and adds exactly this one to the pending ones |
| Delivery.DeliveryManager.DeliverOnce | apps/agent/src/woland_guard_agent/delivery.py:88-136 | sends one oldest-first batch and, row by row: on success exactly its rows go; a single event answered with 413 or 422 is set aside as oversized or quarantined; otherwise every pending row of the batch has one more attempt and its error code, and is due at once after a split, after the delay the server asked for on 429, after the backoff on 429 without one and on server, network and protocol errors, and after the authentication delay on 401 and 403; rows outside the batch do not change |
| Delivery.DeliveryManager.HandleSplittableFailure | apps/agent/src/woland_guard_agent/delivery.py:138-158 | a batch of several is halved and retried at once, a single event is set aside with the status for its answer |
| Delivery.SettledMeans | apps/agent/src/woland_guard_agent/delivery.py:88-158 | the same for the function the runs use, for every answer |
| PoisonIsolation.SettledIds | apps/agent/src/woland_guard_agent/delivery.py:88-158 | ids leave the spool only on success, and then exactly those of the batch; only a single rejected event stops being pending |
| PoisonIsolation.RoundFacts | apps/agent/src/woland_guard_agent/delivery.py:88-158 | one attempt lowers the measure (pending events, current batch size) and keeps what was accepted apart from what is poison |
| PoisonIsolation.Drain | apps/agent/src/woland_guard_agent/delivery.py:88-158 | with a server that rejects exactly poison, repeated attempts deliver exactly the other events and set aside exactly the poison, in at most n*(1+log2 B) requests |
| AgentPipeline.Collector.DrainRecords | apps/agent/src/woland_guard_agent/service.py:189-212 | persists records in order until the stop flag is seen or the spool turns one away, and none of the later ones; every row that is added is pending, due at once and holds the event of one of them |
| AgentPipeline.Collector.PersistRecord | apps/agent/src/woland_guard_agent/service.py:203-212 | an ignored record moves only the cursor; a new event becomes one more pending row, due at once, and a refusal changes nothing |
| AgentPipeline.NewRecordIsPending | apps/agent/src/woland_guard_agent/spool.py:123-171 | a new record that fits is committed, and its id is pending and due right after the step that took it |
| AgentPipeline.BatchIsDelivered | apps/agent/src/woland_guard_agent/delivery.py:88-136 | a batch that is sent, stored and answered leaves each of its events on the server, and its rows settled as the answer demands, in any state of a run |
| AgentPipeline.ReplyClasses | apps/agent/src/woland_guard_agent/transport.py:64-142 | which status code, with which counters, is which class, for every reply |
| AgentPipeline.OtherStepsMean | apps/agent/src/woland_guard_agent/spool.py:377-400 | a requeue, a deletion, a rebase and a crash change what they name and nothing else |
| AgentPipeline.NoLossExactlyOnce | apps/agent/src/woland_guard_agent/service.py:155-220 | in every interleaving of collection, delivery, lost replies, crashes, requeues, deletions and cursor rebases: the id of each committed record that makes an event is in the spool, on the server or was deleted on purpose; the server stored each id at most once and only genuine events; the spool stays within its bound |
| EventLoss.LossExactlyWhenAmbiguous | apps/agent/src/woland_guard_agent/spool.py:123-171 | the same for the event itself and not only its id: no committed event is ever lost, in any run over the given records, if and only if no two of them share a cursor with different events |
| EventLoss.EventsAreSafe | apps/agent/src/woland_guard_agent/normalization.py:104-110 | in a reachable state in which committed records with equal cursors make equal events, the event of every committed record is in a spool row, is what the server has under the id, or its id was deleted |
| EventLoss.OccupiedIdIsDropped | apps/agent/src/woland_guard_agent/spool.py:123-171 | a record whose id is in the spool with another event is committed and not stored |
| EventLoss.OccupiedStays | apps/agent/src/woland_guard_agent/spool.py:123-171 | and its event stays out of the spool for as long as the row of the other event remains |
| EventLoss.StoredOtherwiseIsLost | apps/agent/src/woland_guard_agent/transport.py:114-142 | once the server has another event under the id, the own event of the record never gets there |
| EventLoss.OnlyOneOccurrenceIsStored | apps/agent/src/woland_guard_agent/normalization.py:104-110 | however often a record with one cursor is committed, the server stores at most one event for it, and exactly one once it left the spool undeleted; so all its occurrences are stored if and only if there is at most one |
| SourceOrder.SkipsExactlyWhenJumping | apps/agent/src/woland_guard_agent/service.py:170-220 | for a source read on from its saved cursor, and without one from wherever reading starts at that moment: no record before the saved cursor is ever left out if and only if no such read starts above a record that is not committed, through full spools, crashes, lost replies and rebases |
| SourceOrder.SkippedForGood | apps/agent/src/woland_guard_agent/service.py:214-220 | a record that the saved cursor is past stays uncommitted for as long as reading without a cursor starts above it, and for good once it is no longer available |
| SourceOrder.SkippingIsReachable | apps/agent/src/woland_guard_agent/service.py:214-220 | and it happens: a cursor is given up and what is still available starts above a record that was not committed |
| SourceOrder.EverythingReadIsSafe | apps/agent/src/woland_guard_agent/service.py:170-212 | as long as no record is jumped over, every record up to the saved cursor is committed, the id of its event is safe, and so is the event itself if committed records with equal cursors make equal events |
| FileSource.LinesUpToTheCursorAreSafe | apps/agent/src/woland_guard_agent/service.py:170-212 | for a tailed file, in any joint run of tailer and pipeline without a losing step: the committed lines are exactly the first of all promised lines of all files, up to the one whose cursor is saved, and the event of each is safe |
| FileSource.JointInvariant | apps/agent/src/woland_guard_agent/service.py:170-220 | in such a run the tailer stays exact, the lines it counts as committed are committed records, and the cursor it resumes from is the one in the spool |
| FileSource.EmittedLineCanBeCommitted | apps/agent/src/woland_guard_agent/service.py:189-212 | an emitted line whose cursor fits can be committed at once if there is room or it needs none |
| AgentPipeline.InvariantAt | apps/agent/src/woland_guard_agent/spool.py:123-196 | the inductive invariant behind it, in every reachable state |
| AgentPipeline.LeavesOnlyWhenSafe | apps/agent/src/woland_guard_agent/delivery.py:88-136 | a row leaves the spool only when the server has stored its event or an operator deleted it |
| AgentPipeline.StoredForever | apps/agent/src/woland_guard_agent/transport.py:114-142 | what the server has stored under an id never changes and never disappears |
| AgentPipeline.FullSpoolHoldsCursor | apps/agent/src/woland_guard_agent/spool.py:123-171 | a full spool never moves a cursor for a new event, and still moves it for a record that needs no room |
| AgentPipeline.PersistFacts | apps/agent/src/woland_guard_agent/service.py:203-212 | what persisting one record does to rows, cursors and the bound, for every outcome |
| AgentPipeline.IngestedFacts | apps/agent/src/woland_guard_agent/transport.py:114-142 | insert-if-absent of a batch stores every id of it once and disturbs no other |
| FollowedFile.Tailer.ReadAvailable | apps/agent/src/woland_guard_agent/sources/followed_file.py:108-130 | on fixed content: each line emitted is one whole line of the file, its digest is the bytes of that line up to the cursor, and its text is these bytes without the carriage returns and newlines they end in; the lines are in file order, and a whole line is left out exactly when it is longer than the cap or holds a NUL; a short trailing fragment is left unread |
| FollowedFile.ExpectedMeans | apps/agent/src/woland_guard_agent/sources/followed_file.py:108-160 | the same, byte by byte, for the promised output that the runs speak of |
| FollowedFile.Tailer.DiscardOverlong | apps/agent/src/woland_guard_agent/sources/followed_file.py:132-142 | ends at the end of the line the handle is in, and says whether the line was terminated |
| FollowedFile.Tailer.OpenAt | apps/agent/src/woland_guard_agent/sources/followed_file.py:162-200 | which errors are raised when, and where the handle stands otherwise |
| FollowedFile.Tailer.Backlog | apps/agent/src/woland_guard_agent/sources/followed_file.py:63-81 | resuming from the cursor of line k emits exactly the lines after k, with the same cursors, up to the limit but never fewer than one |
| FollowedFile.ExpectedPrefix | apps/agent/src/woland_guard_agent/sources/followed_file.py:144-160 | the cursor of the k-th line points to a line boundary, and the lines up to it are exactly the first k |
| FollowedFile.ExpectedSplit | apps/agent/src/woland_guard_agent/sources/followed_file.py:108-130 | the lines of a file are those before any line boundary followed by those after it |
| TailerRuns.TailerExactness | apps/agent/src/woland_guard_agent/sources/followed_file.py:83-142 | over any run of growth, bounded reads, any number of renames, commits and restarts at any moment in which no step loses lines: what is emitted is exactly the promised lines of all earlier files and of the current one so far, in order, with their cursors, and everything whenever a read finds nothing more |
| TailerRuns.EmittedIsPromised | apps/agent/src/woland_guard_agent/sources/followed_file.py:108-130 | an exact state has emitted a beginning of the promised lines of all files |
| TailerRuns.ShortLinesNeverLoseTrack | apps/agent/src/woland_guard_agent/sources/followed_file.py:108-130 | with lines within the cap no read loses track, so every run that skips no file and forgets no line is exact |
| TailerRuns.LosingTrackEmitsAFragment | apps/agent/src/woland_guard_agent/sources/followed_file.py:132-142 | the converse for the first losing step: a discard that meets the end of the file at the path before the newline goes on to emit the rest of the line as a line of its own |
| TailerRuns.LosingTrackIsReachable | apps/agent/src/woland_guard_agent/sources/followed_file.py:108-142 | and it happens: the file holds exactly one cap of a longer line |
| TailerRuns.SkippingLosesALine | apps/agent/src/woland_guard_agent/sources/followed_file.py:93-104 | the converse for the second: when files with lines came and went at the path since the drained one, a promised line is passed over |
| TailerRuns.SkippingIsReachable | apps/agent/src/woland_guard_agent/sources/followed_file.py:93-104 | and it happens: two renames before the next check |
| TailerRuns.ForgettingLosesALine | apps/agent/src/woland_guard_agent/sources/followed_file.py:162-181 | the converse for the third: a restart while lines of files before the one at the path are not committed passes one of them over |
| TailerRuns.ForgettingIsReachable | apps/agent/src/woland_guard_agent/sources/followed_file.py:162-181 | and it happens: a restart after a rotation |
| TailerRuns.PassedForever | apps/agent/src/woland_guard_agent/sources/followed_file.py:83-106 | a line passed over is not emitted in any continuation |
| TailerRuns.LinesDiffer | apps/agent/src/woland_guard_agent/sources/followed_file.py:144-160 | no two promised lines of all files are the same: their cursors differ |
| IncidentWorkflow.IncidentStore.TransitionIncident | apps/control-plane/src/woland_guard_control_plane/application/incident_workflow.py:133-262 | field by field: what the incident, the one history entry, the one audit row and the record are afterwards, and which of 404, stale version, not allowed, replay and reused key applies; a fresh 200 exactly when the key is new, the incident exists, the version matches, and the incident is new or is under investigation and to be closed |
| IncidentWorkflow.IncidentStore.AddIncidentComment | apps/control-plane/src/woland_guard_control_plane/application/incident_comments.py:75-163 | the same for comments, which share the key table: one comment with its author and text, one audit row, and the record |
| IncidentWorkflow.WorkflowInvariant | apps/control-plane/src/woland_guard_control_plane/application/incident_workflow.py:170-283 | in every reachable state each history is a gap-free chain of allowed transitions of at most three entries ending in the current status, audit rows match transitions and comments one to one, and 200 records match their effects one to one |
| IncidentWorkflow.ClosingIsReachable | apps/control-plane/src/woland_guard_control_plane/application/incident_workflow.py:170-283 | for every closing status a run exists that investigates an incident and closes it |
| IncidentWorkflow.ChainGrows | apps/control-plane/src/woland_guard_control_plane/application/incident_workflow.py:170-260 | an allowed transition with the next version extends a chain to a chain |
| IncidentWorkflow.ThirdIsTerminal | apps/control-plane/src/woland_guard_control_plane/application/incident_workflow.py:35-46 | two transitions always end in a terminal status, so there is never a third |
| IncidentWorkflow.AuditRowAppended | apps/control-plane/src/woland_guard_control_plane/application/audit.py:322-364 | one more audit row for one more effect keeps the one-to-one match and its order |
| IncidentWorkflow.StepKeepsRecorded | apps/control-plane/src/woland_guard_control_plane/application/operator_idempotency.py:28-68 | every step keeps stored outcomes and effects in one-to-one correspondence |
| IncidentWorkflow.RecordsAreFinal | apps/control-plane/src/woland_guard_control_plane/application/operator_idempotency.py:28-68 | a stored outcome is never changed and never lost |
| IncidentWorkflow.KeysAreSpentOnce | apps/control-plane/src/woland_guard_control_plane/application/incident_workflow.py:146-168 | after the first request with a key, the identical request gets the stored outcome, any other gets 409, and neither changes anything, across transitions and comments |
| IncidentWorkflow.OneSuccessPerVersion | apps/control-plane/src/woland_guard_control_plane/application/incident_workflow.py:192-215 | of all requests that expect one version of an incident at most one ever takes effect |
| IncidentWorkflow.FailuresOnlyRecord | apps/control-plane/src/woland_guard_control_plane/application/incident_workflow.py:170-215 | an outcome other than 200 changes nothing but the record of the request |
| IntegrityBaseline.RoundTrip | apps/agent/src/woland_guard_agent/sources/file_integrity.py:218-235 | parsing a serialized baseline gives the baseline back |
| IntegrityBaseline.CursorLength | apps/agent/src/woland_guard_agent/sources/file_integrity.py:218-219 | its length is 34n-1 and fits 4096 for up to 64 paths |
| IntegrityBaseline.ParseIsWellFormed | apps/agent/src/woland_guard_agent/sources/file_integrity.py:222-235 | whatever the cursor, the parsed baseline is well formed |
| IntegrityBaseline.Scan | apps/agent/src/woland_guard_agent/sources/file_integrity.py:94-133 | one record for each path whose state is not that of the baseline, in the order of the paths and up to a stop request, with its label, whether it can be read, and entries that are new for the paths up to it and old for the others; a full scan of other paths than those of the baseline ends with a new baseline, and without a baseline there is only that |
| IntegrityBaseline.ScanAgainst | apps/agent/src/woland_guard_agent/sources/file_integrity.py:94-133 | the loop that accumulates the committed entries emits the recursive specification |
| IntegrityBaseline.ResumeAfterPrefix | apps/agent/src/woland_guard_agent/sources/file_integrity.py:94-133 | committing any prefix of the change records and scanning the same state again emits exactly the remaining ones with the same cursors |
| IntegrityBaseline.FullScanSettles | apps/agent/src/woland_guard_agent/sources/file_integrity.py:94-140 | once all records are committed the baseline equals the observed state and the next scan emits nothing |
| IntegrityBaseline.PermissionsMeansOnlyPermissions | apps/agent/src/woland_guard_agent/sources/file_integrity.py:143-152 | for each of the five labels, exactly when a change gets it, told from the state before and the state seen |
| IntegrityBaseline.RevertedFileRepeatsCursor | apps/agent/src/woland_guard_agent/sources/file_integrity.py:94-133 | cursors do recur over time: a file changed, changed back and changed again repeats a record, cursor included |
| IntegrityBaseline.CursorsIdentifyEntries | apps/agent/src/woland_guard_agent/sources/file_integrity.py:218-235 | two records with well-formed entries have the same cursor exactly when they carry the same entries |
| IntegrityBaseline.RecordsShareACursor | apps/agent/src/woland_guard_agent/sources/file_integrity.py:94-140 | and that is so of any two records of any two scans, of any files at any time, stopped early or not |
| IntegrityBaseline.OneScanNeverRepeats | apps/agent/src/woland_guard_agent/sources/file_integrity.py:94-133 | within one scan no two change records share a cursor |
| IntegrityLoss.OneCursorTwoChanges | apps/agent/src/woland_guard_agent/sources/file_integrity.py:94-152 | a file whose content changes, whose permissions change and change back yields a first and a last record with one cursor and different events |
| IntegrityLoss.ThreeScans | apps/agent/src/woland_guard_agent/sources/file_integrity.py:94-133 | the scans, each against what is committed after the one before, yield exactly these records |
| IntegrityLoss.ChangeBackIsLost | apps/agent/src/woland_guard_agent/spool.py:123-171 | collected in their order, the last of them is committed and its event is neither in the spool nor on the server |
| SlidingWindow.RateLimiter.Consume | apps/control-plane/src/woland_guard_control_plane/application/rate_limit.py:26-40 | that key loses its expired requests, and is let in exactly if fewer than the limit are left; otherwise the delay is the least whole number of seconds, at least one, after which the oldest has expired; no other key changes |
| SlidingWindow.AdmittedExactly | apps/control-plane/src/woland_guard_control_plane/application/rate_limit.py:26-40 | in clock order, a request is admitted exactly when fewer than `limit` were admitted in the window before it |
| SlidingWindow.EveryWindowIsBounded | apps/control-plane/src/woland_guard_control_plane/application/rate_limit.py:26-40 | every window of the configured length over the whole run holds at most `limit` admitted requests |
| SlidingWindow.RetryIsLeast | apps/control-plane/src/woland_guard_control_plane/application/login_rate_limit.py:139-152 | the returned delay is the least positive whole number of seconds after which the untouched bucket admits |
| SlidingWindow.BoundedInAnyOrder | apps/control-plane/src/woland_guard_control_plane/application/rate_limit.py:26-40 | in whatever order requests are counted, every window is bounded if and only if the limit is one or the window is empty |
| SlidingWindow.LateReadingBreaksTheBound | apps/control-plane/src/woland_guard_control_plane/application/rate_limit.py:26-40 | for every limit above one and every window, a run with one late reading that puts limit + 1 admitted requests into a window |
| LoginLimiter.LoginRateLimiter.ConsumeCredential | apps/control-plane/src/woland_guard_control_plane/application/login_rate_limit.py:70-115 | the global window decides first, then that of malformed credentials or, unless there is no room for one more subject, that of the subject, each with its own least delay; only subjects with a request in their window are left, and never more than allowed |
| LoginLimiter.LoginRateLimiter.CleanupSubjects | apps/control-plane/src/woland_guard_control_plane/application/login_rate_limit.py:127-136 | drops exactly the expired requests and then exactly the empty buckets |
| LoginLimiter.EvictionIsInvisible | apps/control-plane/src/woland_guard_control_plane/application/login_rate_limit.py:70-136 | while capacity is not hit, deleting empty buckets gives the same decisions as never deleting any |
| LoginLimiter.CapacityMeansFull | apps/control-plane/src/woland_guard_control_plane/application/login_rate_limit.py:96-107 | a capacity refusal happens only while that many other subjects are inside their windows |
| LoginRuns.AdmissionsAreBounded | apps/control-plane/src/woland_guard_control_plane/application/login_rate_limit.py:70-152 | over any run in clock order, capacity refusals and evictions included: every global window holds at most the global limit of calls that pass it, every malformed window at most its limit, and for each subject every subject window at most its limit |
| LoginRuns.StageIsAWindow | apps/control-plane/src/woland_guard_control_plane/application/login_rate_limit.py:70-115 | each stage, looked at alone, is one sliding window over the calls that reach it, although subject buckets are deleted and recreated |
| LoginRuns.AdmissionMeans | apps/control-plane/src/woland_guard_control_plane/application/login_rate_limit.py:70-115 | a call is refused by a stage exactly when the window of that stage before it is full |
| LoginRuns.CapacityMeans | apps/control-plane/src/woland_guard_control_plane/application/login_rate_limit.py:94-107 | a call is refused for capacity if and only if the global window has room, the credential is well formed, its subject has no admission in its window, and at least as many others as there are buckets have one |
| LoginRuns.CapacityDelaySuffices | apps/control-plane/src/woland_guard_control_plane/application/login_rate_limit.py:94-107 | the delay given then is one subject window, and after it, with no other call in between, only the global window can still refuse the call |
| KeysetWalk.ListPage | apps/control-plane/src/woland_guard_control_plane/application/incident_queries.py:198-244 | one page: rows after the cursor by creation instant and id, up or down as asked; a row that is left out comes later and only when the page is full, and a next cursor, the last row of the page, is given exactly when one is left out; a cursor of other filters is refused |
| KeysetWalk.PageFacts | apps/control-plane/src/woland_guard_control_plane/application/incident_queries.py:320-376 | a page skips no matching row up to its last one, and a page without a successor skips none at all |
| KeysetWalk.WalkIsExact | apps/control-plane/src/woland_guard_control_plane/application/incident_queries.py:198-244 | with arbitrary changes between pages a walk repeats no row, keeps the order, and when it ends has returned every row that was there throughout |
| KeysetWalk.FixedTablePages | apps/control-plane/src/woland_guard_control_plane/application/incident_queries.py:267-317 | on a fixed table n pages end the walk if and only if they have room for all rows |
| KeysetWalk.FixedTableWalk | apps/control-plane/src/woland_guard_control_plane/application/incident_queries.py:267-317 | and then the walk is the full sorted filtered list |
| KeysetWalk.PageConsumes | apps/control-plane/src/woland_guard_control_plane/application/incident_queries.py:320-376 | a page with a successor takes exactly `limit` rows off the rest |
| IpBlocks.PlanDesk.ProposeIpBlock | apps/control-plane/src/woland_guard_control_plane/application/ip_blocks.py:113-202 | field by field: an unexpired pending plan is reused, an expired one renewed and otherwise one is added, with the command for the set of the address family, the proposer, the expiry and one audit row; which refusal applies follows from the settings, the incident and the policy |
| IpBlocks.PlanDesk.ApproveIpBlock | apps/control-plane/src/woland_guard_control_plane/application/ip_blocks.py:205-260 | which of unknown, decided, expired and same operator applies; otherwise the plan is approved if the policy still permits its address and else rejected with the reason, with the decider, the instant and one audit row, and nothing else changes |
| IpBlocks.PlanDesk.RejectIpBlock | apps/control-plane/src/woland_guard_control_plane/application/ip_blocks.py:263-291 | the same for a rejection, which needs neither policy nor second operator |
| IpBlocks.VerdictIsMeant | apps/control-plane/src/woland_guard_control_plane/application/ip_block_policy.py:78-95 | for every source and each reason, exactly when it is the one given, with the reserved ranges by their first and last addresses |
| IpBlocks.ReservedFour | apps/control-plane/src/woland_guard_control_plane/application/ip_block_policy.py:32-46 | the IPv4 networks of the table together are exactly these ranges of addresses |
| IpBlocks.ReservedSix | apps/control-plane/src/woland_guard_control_plane/application/ip_block_policy.py:47-54 | and the IPv6 networks exactly these |
| IpBlocks.InvariantAt | apps/control-plane/src/woland_guard_control_plane/application/ip_blocks.py:113-359 | in every reachable state at most one plan awaits a decision per incident and address, plans are well formed, active allowlist networks are distinct, and the last audit row of a plan names who acted last |
| IpBlocks.DecisionsAreFinal | apps/control-plane/src/woland_guard_control_plane/application/ip_blocks.py:224-228 | plans never vanish and a decided plan never changes |
| IpBlocks.EveryDecisionHasItsStep | apps/control-plane/src/woland_guard_control_plane/application/ip_blocks.py:205-291 | each decided plan was decided by one call that found it pending and unexpired, and has been the same since |
| IpBlocks.ApprovedPlansWerePermitted | apps/control-plane/src/woland_guard_control_plane/application/ip_block_policy.py:78-95 | each approved plan was unexpired, outside every never-block network and off the allowlist of the moment of approval, and with the second-operator setting on its decider is not its last proposer |
| IpBlocks.DecisionRowsMatchDecidedPlans | apps/control-plane/src/woland_guard_control_plane/application/ip_blocks.py:385-405 | decision audit rows and decided plans match one to one, with action, decider and proposer |
| IpBlocks.OnlyTheAllowlistBlocksAnApproval | apps/control-plane/src/woland_guard_control_plane/application/ip_blocks.py:232-248 | once proposed, only the allowlist can make an approval fail the policy |
| IpBlocks.ProposalLeavesOneLivePlan | apps/control-plane/src/woland_guard_control_plane/application/ip_blocks.py:155-202 | a proposal that is not refused leaves exactly one live plan for the incident and its address |
| IpBlocks.ApprovalIsReachable | apps/control-plane/src/woland_guard_control_plane/application/ip_blocks.py:113-260 | for every address that the policy permits a run exists in which one operator proposes and another approves it |
| IpBlocks.WithinIsARange | apps/control-plane/src/woland_guard_control_plane/application/ip_block_policy.py:31-55 | membership of a network is one aligned range of addresses |
| LikeEscape.ChainedReplacementsEscape | apps/control-plane/src/woland_guard_control_plane/application/dashboard_search.py:48-56 | the three chained replacements equal one character-wise escape |
| LikeEscape.PatternIsExactPrefix | apps/control-plane/src/woland_guard_control_plane/application/dashboard_search.py:48-56 | a string matches the pattern if and only if the term is a prefix of it |
| LikeEscape.EscapeCommutesWithFolding | apps/control-plane/src/woland_guard_control_plane/application/incident_queries.py:663-674 | lower-casing, also where a character becomes several, and escaping commute |
| LikeEscape.FoldedPatternIsExactPrefix | apps/control-plane/src/woland_guard_control_plane/application/incident_queries.py:663-674 | so the case-insensitive search matches exactly the folded prefixes |
| ExactCleanup.Recovery.DeleteExact | scripts/demo_e2e/ownership.py:714-730 | only a recorded resource with both labels is deleted, and only one that no other recorded one goes before: containers, networks, volumes, images, and then by name |
| ExactCleanup.Recovery.CleanupProject | scripts/demo_e2e/ownership.py:461-511 | refuses, changing nothing, exactly when a label names the run or the project without the other, when there are more than four containers, one network, one volume or three images, or when something unrecorded exists, unless nothing is recorded yet and initial discovery is allowed; otherwise uses exactly the durable steps still needed, and what is left after a crash is what was needed less what was done |
| ExactCleanup.Recovery.FirstToDelete | scripts/demo_e2e/ownership.py:789-796 | the next resource is one that no other goes before |
| ExactCleanup.Recovery.CleanupArtifacts | scripts/demo_e2e/recovery.py:181-218 | every recorded temporary file is deleted if it is still there and then dropped, and a crash keeps all progress |
| ExactCleanup.Recovery.RecoverFromLedger | scripts/demo_e2e/ownership.py:443-458 | finishes if and only if it may do as many durable steps as are needed, for both projects, the temporary files and the file itself, and a crash keeps all its progress |
| ExactCleanup.Recovery.RecoverRepeatedly | scripts/demo_e2e/ownership.py:443-511 | rerun after any crashes, it finishes exactly when the steps of all runs together suffice; then no ledger entry is left, exactly the labelled resources were deleted, each once and those of a project in their order, and exactly the recorded temporary files are gone |
| ExactCleanup.OtherProjectKept | scripts/demo_e2e/recovery.py:82-103 | cleaning one project leaves the other project, its entries and its recoverability untouched |
| SyslogYear.RecentLinesKeepTheirYear | apps/agent/src/woland_guard_agent/sources/syslog_file.py:104-132 | a moment under 364 days old and not in the future is resolved to exactly itself, over New Year and for 29 February |
| SyslogYear.YearIsRecovered | apps/agent/src/woland_guard_agent/sources/syslog_file.py:104-132 | up to a day ahead as well, it is resolved to itself if and only if it does not lie in the year after the clock reading |
| SyslogYear.LatestOccurrence | apps/agent/src/woland_guard_agent/sources/syslog_file.py:116-131 | the result is the latest date with this stamp, of this year or before, that is at most a day ahead; none means that neither this year nor the last has one |
| SyslogYear.LimitIsReached | apps/agent/src/woland_guard_agent/sources/syslog_file.py:129-131 | 364 days is the limit: read a day before its anniversary a line is put on the anniversary |
| SyslogYear.AheadOverNewYearIsAYearOff | apps/agent/src/woland_guard_agent/sources/syslog_file.py:116-131 | a line from just after New Year, read just before it, is put a whole year back |
| SyslogYear.LeapDayReadNextYear | apps/agent/src/woland_guard_agent/sources/syslog_file.py:127-128 | 29 February read in the following ordinary year is resolved to last year |
| SyslogYear.ComesBackAfterAYear | apps/agent/src/woland_guard_agent/sources/syslog_file.py:104-132 | a stamp recurs after 366 days if a leap day lies between, else after 365 |
| SyslogYear.InstantsFollowTheCalendar | apps/agent/src/woland_guard_agent/sources/syslog_file.py:104-132 | instants count the seconds of the calendar: the next second of the clock, carried up to the year, is one second later |

## Left out

- HTTP, Telegram, PostgreSQL, SQLite and journalctl themselves: a transaction is one atomic step, and
  `SKIP LOCKED` is any set of rows locked by others.
- Serialization failures, deadlocks and connection loss inside one transaction: a transaction happens
  whole or not at all.
- The texts in `last_error` and the `updated_at` column of the outbox: constants tied to the error code
  and the clock.
- `EqualJitterBackoff.delay`, `BackoffPolicy.delay` and `_validate_worker_timings`: plain arithmetic; the
  delay of a retry is an arbitrary parameter and the lease any positive number.
- The two-level loop of `OutboxWorker.run` with its poll and recovery intervals: recovery may happen at
  any moment of a run instead.
- Queue and spool statistics and the diagnostics table: counters without effect on the protocols.
- AgentPipeline.ReplyClasses: parsing the Retry-After header and capping it at an hour; the delay that the
  server asks for is any number.
- Normalization of log messages: a record either yields an event body or does not.
- File digests, uuid5 and uuid4, HMAC subject keys, request hashes: represented by what they are taken of.
- UTF-8 decoding of tailed lines and the hashing of the cursor digest: a line is its bytes, and a cursor
  holds the raw line in place of its digest.
- `copytruncate`, the reuse of an inode, the moment between a rename and the new file, and writes to a file
  that was renamed away: the code resynchronizes there without an exactness promise.
- FollowedFile.Tailer.ReadAvailable: is stated for content that does not change during the call, and
  without the stop event; growth, stopping and rotation between any two bounded reads are covered by the
  runs in `TailerRuns`.
- The loop of `FollowedFile.follow` as one method: its steps, including the drain after a rename, are the events
  of `TailerRuns`.
- FollowedFile.Tailer.Backlog: the limit cuts the list of lines instead of stopping the generator.
- Non-ASCII letters and digits in baseline cursors: Python's alphanumeric test also accepts them, and
  the model's accepts only ASCII.
- Reading and hashing the watched files: a scan is over one observation of every path.
- Validation and Unicode normalization of reasons, comments and search terms beyond their length.
- The order of the login limiter's dictionary: it has no effect on decisions.
- Several threads inside one limiter call: calls are serial, as the lock makes them; their clock readings
  may be out of order.
- JSON and base64 of pagination cursors and the database's evaluation of filters: a cursor is its key and
  its filters, and a table is the set of keys that match.
- IpBlocks.PlanDesk.ProposeIpBlock: an address is its number rather than its text, and the address
  properties of Python's library are an arbitrary predicate.
- The reason for which an allowlist entry is refused: the model has one error for all of them.
- LikeEscape.FoldedPatternIsExactPrefix: lower-casing is any function of single characters that keeps the
  three special characters apart; foldings that depend on the neighbouring characters are not covered.
- ExactCleanup.Recovery.RecoverFromLedger: the phase field, the checks of the kind and name of a temporary
  file, the confirmation of each single resource by inspection and Docker's output are left out; a crash
  is a bound on durable steps.
- SyslogYear.YearIsRecovered: clock readings in the last day of year 9999 would overflow in the original.
- Threads, signals, process supervision, TLS, file permissions, the React site, Dashboard rendering,
  command lines, settings, key generation and RBAC lookups: easy or untestable members.
